/**
 * The tweets driver of the Markov-chain engine: the states are the words of a
 * corpus, read line by line, a transition is a word followed by the next word
 * of the same line, and a tweet ends at a word whose last character is '.'.
 *
 * The corpus file is given as the sequence of lines `fgets` returns.
 */
module TweetsGenerator {
  import opened Wrappers
  import opened MarkovChain

  /** The characters a line is split at. */
  const DELIMITERS: string := " \n\t\r"
  /** The word count meaning "read the whole corpus". */
  const MAX_WORD_TO_READ: int := -1

  // ---------------------------------------------------------------------------
  // The word behaviours
  // ---------------------------------------------------------------------------

  /**
   * `comp_func`: `strcmp` of the two words, as the sign of the first
   * difference in character order, a proper prefix coming first.
   */
  function CompFunc(a: string, b: string): (r: int)
    ensures -1 <= r <= 1
    ensures r == 0 <==> a == b
    decreases |a|
  {
    if |a| == 0 then (if |b| == 0 then 0 else -1)
    else if |b| == 0 then 1
    else if a[0] < b[0] then -1
    else if a[0] > b[0] then 1
    else
      assert a == [a[0]] + a[1..] && b == [b[0]] + b[1..];
      CompFunc(a[1..], b[1..])
  }

  /** The engine's equality: `comp_func(a, b) == 0`. */
  predicate SameWord(a: string, b: string) {
    CompFunc(a, b) == 0
  }

  /** `copy_func`: the character-by-character copy `strcpy` makes into fresh memory. */
  function CopyFunc(w: string): (r: string)
    ensures r == w
    decreases |w|
  {
    if |w| == 0 then [] else [w[0]] + CopyFunc(w[1..])
  }

  /** `check_is_last`: the word's last character is a full stop, so it is some text followed by `.`. */
  predicate CheckIsLast(w: string)
    ensures CheckIsLast(w) <==> exists p :: w == p + "."
  {
    if |w| > 0 && w[|w| - 1] == '.' then
      assert w == w[..|w| - 1] + ".";
      true
    else false
  }

  /** `print_func`: the word itself, with nothing around it. */
  function PrintFunc(w: string): (r: string)
    ensures r == w
  {
    w
  }

  /**
   * A tweet of two words or more that ends at a word with a full stop prints
   * that full stop as its last character: the engine puts no space after a
   * terminal word.
   */
  lemma PrintedTweetEndsWithStop(db: seq<MarkovNode<string>>, walk: seq<nat>)
    requires |walk| > 1 && forall k :: 0 <= k < |walk| ==> walk[k] < |db|
    requires CheckIsLast(db[walk[|walk| - 1]].data)
    ensures var out := Printed(db, PrintFunc, CheckIsLast, walk); |out| > 0 && out[|out| - 1] == '.'
  {
    var word := db[walk[|walk| - 1]].data;
    var init := Printed(db, PrintFunc, CheckIsLast, walk[..|walk| - 1]);
    assert Printed(db, PrintFunc, CheckIsLast, walk) == init + word + "";
  }

  /** The word behaviours meet what the engine relies on. */
  lemma WordBehavioursLawful()
    ensures LawfulBehaviours(SameWord, CopyFunc)
  {
    forall x: string, y: string
      ensures SameWord(x, y) <==> x == y
    {
    }
  }

  /** `create_chain`: an empty chain with the word behaviours. */
  method CreateChain() returns (chain: Chain<string>)
    ensures fresh(chain) && chain.Valid() && chain.database == []
    ensures chain.comp == SameWord && chain.copy == CopyFunc && chain.isLast == CheckIsLast && chain.render == PrintFunc
  {
    WordBehavioursLawful();
    chain := new Chain(SameWord, CopyFunc, CheckIsLast, PrintFunc);
  }

  // ---------------------------------------------------------------------------
  // Splitting a line into words
  // ---------------------------------------------------------------------------

  predicate IsDelimiter(c: char) {
    c in DELIMITERS
  }

  /** A token: a non-empty run of non-delimiters. */
  predicate IsWord(w: string) {
    |w| > 0 && forall m :: 0 <= m < |w| ==> !IsDelimiter(w[m])
  }

  /** The length of the run of non-delimiters `s` starts with. */
  function WordLength(s: string): (n: nat)
    ensures n <= |s|
    ensures forall m :: 0 <= m < n ==> !IsDelimiter(s[m])
    ensures n < |s| ==> IsDelimiter(s[n])
    decreases |s|
  {
    if |s| == 0 || IsDelimiter(s[0]) then 0 else 1 + WordLength(s[1..])
  }

  /**
   * The tokens `strtok(line, DELIMITERS)` and then `strtok(NULL, DELIMITERS)`
   * return in turn: the maximal runs of non-delimiters, in order.
   */
  function Tokens(s: string): (r: seq<string>)
    decreases |s|
  {
    if |s| == 0 then []
    else if IsDelimiter(s[0]) then Tokens(s[1..])
    else
      var n := WordLength(s);
      [s[..n]] + Tokens(s[n..])
  }

  /** Every token is a word: non-empty, without a delimiter. */
  lemma {:induction false} TokensAreWords(s: string)
    ensures forall k :: 0 <= k < |Tokens(s)| ==> IsWord(Tokens(s)[k])
    decreases |s|
  {
    if s != [] {
      if IsDelimiter(s[0]) {
        TokensAreWords(s[1..]);
      } else {
        var n := WordLength(s);
        TokensAreWords(s[n..]);
        assert Tokens(s) == [s[..n]] + Tokens(s[n..]);
      }
    }
  }

  /** The non-delimiter characters of `s`, in order. */
  function Letters(s: string): string
    decreases |s|
  {
    if |s| == 0 then [] else (if IsDelimiter(s[0]) then [] else [s[0]]) + Letters(s[1..])
  }

  /** The words of `ws` written one after another. */
  function Concat(ws: seq<string>): string
    decreases |ws|
  {
    if |ws| == 0 then [] else ws[0] + Concat(ws[1..])
  }

  /** The words of `ws` separated by single spaces. */
  function Join(ws: seq<string>): string
    decreases |ws|
  {
    if |ws| == 0 then []
    else if |ws| == 1 then ws[0]
    else ws[0] + " " + Join(ws[1..])
  }

  lemma {:induction false} LettersOfRun(s: string, n: nat)
    requires n <= |s|
    requires forall m :: 0 <= m < n ==> !IsDelimiter(s[m])
    ensures Letters(s) == s[..n] + Letters(s[n..])
    decreases n
  {
    if n == 0 {
      assert s[0..] == s;
    } else {
      LettersOfRun(s[1..], n - 1);
      assert s[1..][..n - 1] == s[1..n];
      assert s[1..][n - 1..] == s[n..];
      assert s[..n] == [s[0]] + s[1..n];
    }
  }

  /** Splitting loses no character but the delimiters: the tokens put together are the line's letters. */
  lemma {:induction false} TokensKeepLetters(s: string)
    ensures Concat(Tokens(s)) == Letters(s)
    decreases |s|
  {
    if s != [] {
      if IsDelimiter(s[0]) {
        TokensKeepLetters(s[1..]);
      } else {
        var n := WordLength(s);
        TokensKeepLetters(s[n..]);
        LettersOfRun(s, n);
        assert Tokens(s) == [s[..n]] + Tokens(s[n..]);
        assert ([s[..n]] + Tokens(s[n..]))[1..] == Tokens(s[n..]);
      }
    }
  }

  lemma {:induction false} WordLengthOfWord(w: string, rest: string)
    requires forall m :: 0 <= m < |w| ==> !IsDelimiter(w[m])
    requires rest == [] || IsDelimiter(rest[0])
    ensures WordLength(w + rest) == |w|
    decreases |w|
  {
    if w == [] {
      assert w + rest == rest;
    } else {
      assert (w + rest)[1..] == w[1..] + rest;
      WordLengthOfWord(w[1..], rest);
    }
  }

  /** A word followed by a delimiter (or nothing) is split off whole. */
  lemma TokensOfWord(w: string, rest: string)
    requires IsWord(w)
    requires rest == [] || IsDelimiter(rest[0])
    ensures Tokens(w + rest) == [w] + Tokens(rest)
  {
    WordLengthOfWord(w, rest);
    var s := w + rest;
    assert s[0] == w[0];
    assert s[..|w|] == w;
    assert s[|w|..] == rest;
  }

  /** Round trip: the tokens of words joined by spaces are those words. */
  lemma {:induction false} TokensOfJoin(ws: seq<string>)
    requires forall k :: 0 <= k < |ws| ==> IsWord(ws[k])
    ensures Tokens(Join(ws)) == ws
    decreases |ws|
  {
    if |ws| == 1 {
      TokensOfWord(ws[0], []);
      assert ws[0] + [] == ws[0];
    } else if |ws| > 1 {
      var rest := Join(ws[1..]);
      TokensOfJoin(ws[1..]);
      TokensOfWord(ws[0], " " + rest);
      TokensAfterSpace(rest);
      assert Join(ws) == ws[0] + (" " + rest);
      assert ws == [ws[0]] + ws[1..];
    }
  }

  /** A leading space is skipped. */
  lemma TokensAfterSpace(s: string)
    ensures Tokens(" " + s) == Tokens(s)
  {
    assert (" " + s)[1..] == s;
  }

  // ---------------------------------------------------------------------------
  // The words read and the database they build
  // ---------------------------------------------------------------------------

  /** A word of the corpus, and whether it is the first word of its line. */
  datatype Word = Word(text: string, startsLine: bool)

  /** The words of one line. */
  function LineWords(line: string): (r: seq<Word>)
    ensures |r| == |Tokens(line)|
  {
    Flagged(Tokens(line), true)
  }

  /** The tokens as words, only the first of them (when `first`) starting the line. */
  function Flagged(ts: seq<string>, first: bool): (r: seq<Word>)
    ensures |r| == |ts|
    decreases |ts|
  {
    if |ts| == 0 then [] else [Word(ts[0], first)] + Flagged(ts[1..], false)
  }

  /** The words of the corpus, line after line. */
  function Corpus(lines: seq<string>): seq<Word>
    decreases |lines|
  {
    if |lines| == 0 then [] else LineWords(lines[0]) + Corpus(lines[1..])
  }

  /**
   * The words `fill_database` reads: the first `wordsToRead` words of the
   * corpus; all of them when `wordsToRead` is `MAX_WORD_TO_READ`, or any count
   * the running count never reaches (zero, a negative count, or one larger
   * than the corpus).
   */
  function WordsRead(lines: seq<string>, wordsToRead: int): (r: seq<Word>)
    ensures |r| <= |Corpus(lines)| && r == Corpus(lines)[..|r|]
    ensures 1 <= wordsToRead <= |Corpus(lines)| ==> |r| == wordsToRead
    ensures (wordsToRead < 1 || wordsToRead >= |Corpus(lines)|) ==> r == Corpus(lines)
  {
    var all := Corpus(lines);
    if 1 <= wordsToRead < |all| then all[..wordsToRead] else all
  }

  /** The database after one word is read, `prev` being the state of the word read before it. */
  function ReadWord(db: seq<MarkovNode<string>>, comp: (string, string) -> bool, copy: string -> string, prev: Option<nat>, w: Word): (r: seq<MarkovNode<string>>)
    requires prev.Some? ==> prev.value < |db|
    ensures |db| <= |r| <= |db| + 1
    ensures Position(db, comp, w.text) < |r|
  {
    var added := Inserted(db, comp, copy, w.text);
    if prev.Some? && !w.startsLine then Linked(added, prev.value, Position(db, comp, w.text)) else added
  }

  /**
   * The database after the words `ws` are read in order: each word is added,
   * and linked from the word before it when both are on the same line.
   */
  function ReadWords(db: seq<MarkovNode<string>>, comp: (string, string) -> bool, copy: string -> string, ws: seq<Word>, prev: Option<nat>): (r: seq<MarkovNode<string>>)
    requires prev.Some? ==> prev.value < |db|
    ensures |db| <= |r| <= |db| + |ws|
    decreases |ws|
  {
    if |ws| == 0 then db
    else
      var pos := Position(db, comp, ws[0].text);
      assert pos < |ReadWord(db, comp, copy, prev, ws[0])|;
      ReadWords(ReadWord(db, comp, copy, prev, ws[0]), comp, copy, ws[1..], Some(pos))
  }

  /** The number of words of `ws` that continue a line. */
  function Continuations(ws: seq<Word>): nat
    decreases |ws|
  {
    if |ws| == 0 then 0 else (if ws[0].startsLine then 0 else 1) + Continuations(ws[1..])
  }

  /** The number of consecutive word pairs inside the lines: a line of n >= 1 words has n - 1. */
  function LinePairs(lines: seq<string>): nat
    decreases |lines|
  {
    if |lines| == 0 then 0
    else (if Tokens(lines[0]) == [] then 0 else |Tokens(lines[0])| - 1) + LinePairs(lines[1..])
  }

  /**
   * Reading the words records one transition per word that continues a line,
   * and none across a line break.
   */
  lemma {:induction false} ReadWordsRecords(db: seq<MarkovNode<string>>, comp: (string, string) -> bool, copy: string -> string, ws: seq<Word>, prev: Option<nat>)
    requires prev.Some? ==> prev.value < |db|
    requires prev.None? && ws != [] ==> ws[0].startsLine
    ensures TransitionCount(ReadWords(db, comp, copy, ws, prev)) == TransitionCount(db) + Continuations(ws)
    decreases |ws|
  {
    if ws != [] {
      var w := ws[0];
      var added := Inserted(db, comp, copy, w.text);
      InsertedAddsNone(db, comp, copy, w.text);
      if prev.Some? && !w.startsLine {
        LinkedAddsOne(added, prev.value, Position(db, comp, w.text));
      }
      ReadWordsRecords(ReadWord(db, comp, copy, prev, w), comp, copy, ws[1..], Some(Position(db, comp, w.text)));
    }
  }

  lemma {:induction false} ContinuationsAppend(a: seq<Word>, b: seq<Word>)
    ensures Continuations(a + b) == Continuations(a) + Continuations(b)
    decreases |a|
  {
    if a == [] {
      assert a + b == b;
    } else {
      assert (a + b)[1..] == a[1..] + b;
      ContinuationsAppend(a[1..], b);
    }
  }

  lemma {:induction false} ContinuationsOfFlagged(ts: seq<string>, first: bool)
    ensures Continuations(Flagged(ts, first)) == if |ts| == 0 then 0 else if first then |ts| - 1 else |ts|
    decreases |ts|
  {
    if ts != [] {
      ContinuationsOfFlagged(ts[1..], false);
    }
  }

  /** Every word of a line but its first continues the line. */
  lemma LineContinuations(line: string)
    ensures Continuations(LineWords(line)) == if Tokens(line) == [] then 0 else |Tokens(line)| - 1
  {
    ContinuationsOfFlagged(Tokens(line), true);
  }

  /** Links never cross lines: the corpus holds one continuation per consecutive pair inside a line. */
  lemma {:induction false} CorpusContinuations(lines: seq<string>)
    ensures Continuations(Corpus(lines)) == LinePairs(lines)
    decreases |lines|
  {
    if lines != [] {
      ContinuationsAppend(LineWords(lines[0]), Corpus(lines[1..]));
      LineContinuations(lines[0]);
      CorpusContinuations(lines[1..]);
    }
  }

  /** The corpus starts with the first word of a line. */
  lemma {:induction false} CorpusStartsLine(lines: seq<string>)
    ensures Corpus(lines) != [] ==> Corpus(lines)[0].startsLine
    decreases |lines|
  {
    if lines != [] && LineWords(lines[0]) == [] {
      CorpusStartsLine(lines[1..]);
    }
  }

  lemma {:induction false} CorpusSplit(lines: seq<string>, i: nat)
    requires i <= |lines|
    ensures Corpus(lines) == Corpus(lines[..i]) + Corpus(lines[i..])
    decreases i
  {
    if i == 0 {
      assert lines[..0] == [] && lines[0..] == lines;
    } else {
      CorpusSplit(lines[1..], i - 1);
      assert lines[1..][i - 1..] == lines[i..];
      assert lines[..i][1..] == lines[1..][..i - 1];
    }
  }

  lemma CorpusAtLine(lines: seq<string>, i: nat)
    requires i < |lines|
    ensures Corpus(lines) == Corpus(lines[..i]) + LineWords(lines[i]) + Corpus(lines[i + 1..])
  {
    CorpusSplit(lines, i);
    assert lines[i..][1..] == lines[i + 1..];
  }

  lemma {:induction false} CorpusSnoc(lines: seq<string>, i: nat)
    requires i < |lines|
    ensures Corpus(lines[..i + 1]) == Corpus(lines[..i]) + LineWords(lines[i])
    decreases i
  {
    if i == 0 {
      assert lines[..1][1..] == [];
      assert lines[..0] == [];
    } else {
      CorpusSnoc(lines[1..], i - 1);
      assert lines[..i + 1][1..] == lines[1..][..i];
      assert lines[..i][1..] == lines[1..][..i - 1];
      assert lines[1..][i - 1] == lines[i];
    }
  }

  /**
   * `fill_database` over a full read of the corpus records exactly one
   * transition per pair of consecutive words of a line.
   */
  lemma FillDatabaseTransitions(db: seq<MarkovNode<string>>, comp: (string, string) -> bool, copy: string -> string, lines: seq<string>)
    ensures TransitionCount(ReadWords(db, comp, copy, WordsRead(lines, MAX_WORD_TO_READ), None)) == TransitionCount(db) + LinePairs(lines)
  {
    CorpusStartsLine(lines);
    ReadWordsRecords(db, comp, copy, Corpus(lines), None);
    CorpusContinuations(lines);
  }

  /** The set of words of `ws`. */
  function Texts(ws: seq<Word>): set<string>
    decreases |ws|
  {
    if |ws| == 0 then {} else {ws[0].text} + Texts(ws[1..])
  }

  /** The set of payloads of the database's states. */
  function Payloads(db: seq<MarkovNode<string>>): set<string> {
    set i | 0 <= i < |db| :: db[i].data
  }

  lemma ReadWordPayloads(db: seq<MarkovNode<string>>, prev: Option<nat>, w: Word)
    requires prev.Some? ==> prev.value < |db|
    ensures |db| <= |ReadWord(db, SameWord, CopyFunc, prev, w)|
    ensures Payloads(ReadWord(db, SameWord, CopyFunc, prev, w)) == Payloads(db) + {w.text}
  {
    var added := Inserted(db, SameWord, CopyFunc, w.text);
    var r := ReadWord(db, SameWord, CopyFunc, prev, w);
    PayloadsSameData(r, added);
    match Find(db, SameWord, w.text)
    case Some(i) =>
      assert db[i].data == w.text;
    case None =>
      assert added == db + [MarkovNode(w.text, [])];
      PayloadsSnoc(db, MarkovNode(w.text, []));
  }

  /** Databases whose states hold the same payloads, position by position, hold the same set of them. */
  lemma PayloadsSameData(a: seq<MarkovNode<string>>, b: seq<MarkovNode<string>>)
    requires |a| == |b| && forall i :: 0 <= i < |a| ==> a[i].data == b[i].data
    ensures Payloads(a) == Payloads(b)
  {
    forall x | x in Payloads(a)
      ensures x in Payloads(b)
    {
      var i :| 0 <= i < |a| && a[i].data == x;
      assert b[i].data == x;
    }
    forall x | x in Payloads(b)
      ensures x in Payloads(a)
    {
      var i :| 0 <= i < |b| && b[i].data == x;
      assert a[i].data == x;
    }
  }

  /** Appending a state adds its payload. */
  lemma PayloadsSnoc(db: seq<MarkovNode<string>>, node: MarkovNode<string>)
    ensures Payloads(db + [node]) == Payloads(db) + {node.data}
  {
    var e := db + [node];
    forall x | x in Payloads(e)
      ensures x in Payloads(db) + {node.data}
    {
      var i :| 0 <= i < |e| && e[i].data == x;
      if i < |db| {
        assert db[i].data == x;
      }
    }
    forall x | x in Payloads(db)
      ensures x in Payloads(e)
    {
      var i :| 0 <= i < |db| && db[i].data == x;
      assert e[i].data == x;
    }
    assert e[|db|].data == node.data;
  }

  /**
   * Reading words gives every word read a state and adds no other payload:
   * the payloads afterwards are the earlier ones and the words read.
   */
  lemma {:induction false} ReadWordsPayloads(db: seq<MarkovNode<string>>, ws: seq<Word>, prev: Option<nat>)
    requires prev.Some? ==> prev.value < |db|
    ensures Payloads(ReadWords(db, SameWord, CopyFunc, ws, prev)) == Payloads(db) + Texts(ws)
    decreases |ws|
  {
    if ws != [] {
      var pos := Position(db, SameWord, ws[0].text);
      ReadWordPayloads(db, prev, ws[0]);
      assert pos < |ReadWord(db, SameWord, CopyFunc, prev, ws[0])|;
      ReadWordsPayloads(ReadWord(db, SameWord, CopyFunc, prev, ws[0]), ws[1..], Some(pos));
    }
  }

  /** The word read just before word `k` of `ws` on the same line, `before` standing for the one before `ws`. */
  function PrevText(ws: seq<Word>, before: Option<string>, k: nat): Option<string>
    requires k < |ws|
  {
    if k == 0 then before else Some(ws[k - 1].text)
  }

  /**
   * How many times word `v` follows word `u` on a line of `ws`, `before` being
   * the word read just before `ws`, if any.
   */
  function Follows(ws: seq<Word>, before: Option<string>, u: string, v: string): nat
    decreases |ws|
  {
    if |ws| == 0 then 0
    else (if !ws[0].startsLine && before == Some(u) && ws[0].text == v then 1 else 0) + Follows(ws[1..], Some(ws[0].text), u, v)
  }

  /** `v` follows `u` at least once exactly when some word `v` continues a line right after a word `u`. */
  lemma {:induction false} FollowsPositive(ws: seq<Word>, before: Option<string>, u: string, v: string)
    ensures Follows(ws, before, u, v) > 0 <==>
      exists k :: 0 <= k < |ws| && !ws[k].startsLine && PrevText(ws, before, k) == Some(u) && ws[k].text == v
    decreases |ws|
  {
    if ws != [] {
      var tail := ws[1..];
      var b := Some(ws[0].text);
      FollowsPositive(tail, b, u, v);
      if Follows(ws, before, u, v) > 0 {
        if !(!ws[0].startsLine && before == Some(u) && ws[0].text == v) {
          var k :| 0 <= k < |tail| && !tail[k].startsLine && PrevText(tail, b, k) == Some(u) && tail[k].text == v;
          assert PrevText(ws, before, k + 1) == PrevText(tail, b, k);
          assert ws[k + 1] == tail[k];
        } else {
          assert PrevText(ws, before, 0) == before;
        }
      }
      if exists k :: 0 <= k < |ws| && !ws[k].startsLine && PrevText(ws, before, k) == Some(u) && ws[k].text == v {
        var k :| 0 <= k < |ws| && !ws[k].startsLine && PrevText(ws, before, k) == Some(u) && ws[k].text == v;
        if k > 0 {
          assert PrevText(tail, b, k - 1) == PrevText(ws, before, k);
          assert tail[k - 1] == ws[k];
        }
      }
    }
  }

  /** The payload of state `prev`: the word read before. */
  function Before(db: seq<MarkovNode<string>>, prev: Option<nat>): Option<string>
    requires prev.Some? ==> prev.value < |db|
  {
    if prev.Some? then Some(db[prev.value].data) else None
  }

  /** Reading keeps the engine's invariants and the payload of every earlier state. */
  lemma {:induction false} ReadWordsKeeps(db: seq<MarkovNode<string>>, ws: seq<Word>, prev: Option<nat>)
    requires prev.Some? ==> prev.value < |db|
    requires NoDuplicates(db, SameWord) && WellFormedDatabase(db)
    ensures var r := ReadWords(db, SameWord, CopyFunc, ws, prev);
      && |db| <= |r| && NoDuplicates(r, SameWord) && WellFormedDatabase(r)
      && forall i :: 0 <= i < |db| ==> r[i].data == db[i].data
    decreases |ws|
  {
    if ws != [] {
      WordBehavioursLawful();
      var w := ws[0];
      var pos := Position(db, SameWord, w.text);
      var added := Inserted(db, SameWord, CopyFunc, w.text);
      InsertedKeepsInvariants(db, SameWord, CopyFunc, w.text);
      if prev.Some? && !w.startsLine {
        LinkedKeepsInvariants(added, SameWord, prev.value, pos);
      }
      var db1 := ReadWord(db, SameWord, CopyFunc, prev, w);
      assert forall i :: 0 <= i < |db| ==> db1[i].data == db[i].data by {
        assert forall i :: 0 <= i < |db| ==> added[i] == db[i];
      }
      ReadWordsKeeps(db1, ws[1..], Some(pos));
    }
  }

  /**
   * One word: the invariants are kept, the word's state and the previous
   * state hold the expected payloads, and only the pair (previous, word) gains
   * a transition, when the word continues a line.
   */
  lemma ReadWordPairCount(db: seq<MarkovNode<string>>, prev: Option<nat>, w: Word, p: nat, q: nat)
    requires prev.Some? ==> prev.value < |db|
    requires NoDuplicates(db, SameWord) && WellFormedDatabase(db)
    ensures var db1 := ReadWord(db, SameWord, CopyFunc, prev, w);
      var pos := Position(db, SameWord, w.text);
      && pos < |db1| && db1[pos].data == w.text
      && NoDuplicates(db1, SameWord) && WellFormedDatabase(db1)
      && (prev.Some? ==> db1[prev.value].data == db[prev.value].data)
      && PairCount(db1, p, q) == PairCount(db, p, q) + (if prev.Some? && !w.startsLine && p == prev.value && q == pos then 1 else 0)
  {
    WordBehavioursLawful();
    var pos := Position(db, SameWord, w.text);
    var added := Inserted(db, SameWord, CopyFunc, w.text);
    InsertedKeepsInvariants(db, SameWord, CopyFunc, w.text);
    InsertedPairCount(db, SameWord, CopyFunc, w.text, p, q);
    if prev.Some? && !w.startsLine {
      LinkedKeepsInvariants(added, SameWord, prev.value, pos);
      LinkedPairCount(added, prev.value, pos, p, q);
    }
    if prev.Some? {
      assert added[prev.value] == db[prev.value];
    }
  }

  /**
   * Which pair of words gets linked: reading adds to the count of a pair of
   * states exactly the number of times the second state's word follows the
   * first state's word on a line, and nothing to any other pair.
   */
  lemma {:induction false} ReadWordsPairs(db: seq<MarkovNode<string>>, ws: seq<Word>, prev: Option<nat>, p: nat, q: nat)
    requires prev.Some? ==> prev.value < |db|
    requires NoDuplicates(db, SameWord) && WellFormedDatabase(db)
    ensures var r := ReadWords(db, SameWord, CopyFunc, ws, prev);
      p < |r| && q < |r| ==> PairCount(r, p, q) == PairCount(db, p, q) + Follows(ws, Before(db, prev), r[p].data, r[q].data)
    decreases |ws|
  {
    var r := ReadWords(db, SameWord, CopyFunc, ws, prev);
    if ws != [] && p < |r| && q < |r| {
      var w := ws[0];
      var pos := Position(db, SameWord, w.text);
      var db1 := ReadWord(db, SameWord, CopyFunc, prev, w);
      ReadWordPairCount(db, prev, w, p, q);
      ReadWordsStep(db, SameWord, CopyFunc, ws, prev);
      ReadWordsPairs(db1, ws[1..], Some(pos), p, q);
      ReadWordsKeeps(db1, ws[1..], Some(pos));
      WordBehavioursLawful();
      SameState(r, SameWord, q, pos);
      assert r[pos].data == w.text;
      if prev.Some? {
        SameState(r, SameWord, p, prev.value);
        assert r[prev.value].data == db[prev.value].data;
      }
    }
  }

  /**
   * Read into an empty database, state `p` lists state `q` as a successor
   * exactly when `q`'s word continues a line right after `p`'s word somewhere
   * in `ws`.
   */
  lemma ReadWordsLinks(ws: seq<Word>, p: nat, q: nat)
    ensures var r := ReadWords([], SameWord, CopyFunc, ws, None);
      p < |r| && q < |r| ==>
        (IndexOfTarget(r[p].frequencies, q).Some? <==>
          exists k :: 0 <= k < |ws| && !ws[k].startsLine && PrevText(ws, None, k) == Some(r[p].data) && ws[k].text == r[q].data)
  {
    var r := ReadWords([], SameWord, CopyFunc, ws, None);
    if p < |r| && q < |r| {
      ReadWordsPairs([], ws, None, p, q);
      ReadWordsKeeps([], ws, None);
      FollowsPositive(ws, None, r[p].data, r[q].data);
      assert WellFormedList(r[p].frequencies, |r|);
    }
  }

  /**
   * `fill_database` on an empty chain: the count recorded from the state of a
   * word u to the state of a word v is the number of times v follows u on a
   * line of the words read.
   */
  lemma FillDatabasePairs(lines: seq<string>, wordsToRead: int, p: nat, q: nat)
    ensures var ws := WordsRead(lines, wordsToRead);
      var r := ReadWords([], SameWord, CopyFunc, ws, None);
      p < |r| && q < |r| ==> PairCount(r, p, q) == Follows(ws, None, r[p].data, r[q].data)
  {
    ReadWordsPairs([], WordsRead(lines, wordsToRead), None, p, q);
  }

  lemma ReadWordsStep(db: seq<MarkovNode<string>>, comp: (string, string) -> bool, copy: string -> string, ws: seq<Word>, prev: Option<nat>)
    requires prev.Some? ==> prev.value < |db|
    requires ws != []
    ensures Position(db, comp, ws[0].text) < |ReadWord(db, comp, copy, prev, ws[0])|
    ensures ReadWords(db, comp, copy, ws, prev) == ReadWords(ReadWord(db, comp, copy, prev, ws[0]), comp, copy, ws[1..], Some(Position(db, comp, ws[0].text)))
  {
  }

  /** Reading across a line break: the second part starts afresh, whatever word came last. */
  lemma {:induction false} ReadWordsAppend(db: seq<MarkovNode<string>>, comp: (string, string) -> bool, copy: string -> string, a: seq<Word>, b: seq<Word>, prev: Option<nat>)
    requires prev.Some? ==> prev.value < |db|
    requires b != [] ==> b[0].startsLine
    ensures ReadWords(db, comp, copy, a + b, prev) == ReadWords(ReadWords(db, comp, copy, a, prev), comp, copy, b, None)
    decreases |a|
  {
    if a == [] {
      assert a + b == b;
      ReadWordsAtLineStart(db, comp, copy, b, prev);
    } else {
      var pos := Position(db, comp, a[0].text);
      assert pos < |ReadWord(db, comp, copy, prev, a[0])|;
      assert (a + b)[0] == a[0] && (a + b)[1..] == a[1..] + b;
      ReadWordsAppend(ReadWord(db, comp, copy, prev, a[0]), comp, copy, a[1..], b, Some(pos));
    }
  }

  /** Reading the next line's first word ignores the state of the word before it. */
  lemma ReadWordsAtLineStart(db: seq<MarkovNode<string>>, comp: (string, string) -> bool, copy: string -> string, ws: seq<Word>, prev: Option<nat>)
    requires prev.Some? ==> prev.value < |db|
    requires ws != [] ==> ws[0].startsLine
    ensures ReadWords(db, comp, copy, ws, prev) == ReadWords(db, comp, copy, ws, None)
  {
  }

  // ---------------------------------------------------------------------------
  // fill_database
  // ---------------------------------------------------------------------------

  lemma {:induction false} FlaggedAt(ts: seq<string>, first: bool, j: nat)
    requires j < |ts|
    ensures Flagged(ts, first)[j] == Word(ts[j], first && j == 0)
    decreases j
  {
    if j > 0 {
      FlaggedAt(ts[1..], false, j - 1);
    }
  }

  /** Word `k` of a line is its token `k`, starting the line when `k` is zero. */
  lemma LineWordsAre(line: string)
    ensures |LineWords(line)| == |Tokens(line)|
    ensures forall k :: 0 <= k < |Tokens(line)| ==> LineWords(line)[k] == Word(Tokens(line)[k], k == 0)
  {
    forall k | 0 <= k < |Tokens(line)|
      ensures LineWords(line)[k] == Word(Tokens(line)[k], k == 0)
    {
      LineWordAt(line, k);
    }
  }

  lemma LineWordAt(line: string, j: nat)
    requires j < |Tokens(line)|
    ensures LineWords(line)[j] == Word(Tokens(line)[j], j == 0)
  {
    FlaggedAt(Tokens(line), true, j);
  }

  /** Reading word j of `words[j..n]` leaves `words[j + 1..n]` to read. */
  lemma ReadOne(db: seq<MarkovNode<string>>, comp: (string, string) -> bool, copy: string -> string,
                words: seq<Word>, j: nat, n: nat, prev: Option<nat>, final: seq<MarkovNode<string>>)
    requires j < n <= |words| && ReadsInto(db, comp, copy, words[j..n], prev, final)
    ensures ReadsInto(ReadWord(db, comp, copy, prev, words[j]), comp, copy, words[j + 1..n], Some(Position(db, comp, words[j].text)), final)
  {
    var ws := words[j..n];
    assert ws[0] == words[j] && ws[1..] == words[j + 1..n];
    ReadWordsStep(db, comp, copy, ws, prev);
  }

  /** Reading `ws` from `db`, the state of the word before them being `prev`, gives `final`. */
  ghost predicate ReadsInto(db: seq<MarkovNode<string>>, comp: (string, string) -> bool, copy: string -> string,
                            ws: seq<Word>, prev: Option<nat>, final: seq<MarkovNode<string>>)
  {
    && (prev.Some? ==> prev.value < |db|)
    && ReadWords(db, comp, copy, ws, prev) == final
  }

  /** Nothing left to read leaves the database as it is. */
  lemma ReadNothing(db: seq<MarkovNode<string>>, comp: (string, string) -> bool, copy: string -> string,
                    words: seq<Word>, n: nat, prev: Option<nat>)
    requires n <= |words| && (prev.Some? ==> prev.value < |db|)
    ensures ReadWords(db, comp, copy, words[n..n], prev) == db
  {
    assert words[n..n] == [];
  }

  /** Once the token loop has read all `n` words it reads of the line, the database is the one they give. */
  lemma ReadLineExit(db0: seq<MarkovNode<string>>, db: seq<MarkovNode<string>>, comp: (string, string) -> bool, copy: string -> string,
                     words: seq<Word>, n: nat, k: int, prev: Option<nat>, final: seq<MarkovNode<string>>)
    requires k == n <= |words| && ReadsInto(db, comp, copy, words[n..n], prev, final)
    requires ReadsInto(db0, comp, copy, words[0..n], None, final)
    ensures ReadsInto(db0, comp, copy, words[..k], None, db)
  {
    ReadNothing(db, comp, copy, words, n, prev);
    assert words[0..n] == words[..k];
  }

  /**
   * One line of `fill_database`, read from `wordsCount` words on up to
   * `count`: either the reading stopped inside it, and the database is the
   * one `WordsRead` gives, or the whole line was read, and the corpus read so
   * far grows by it.
   */
  lemma LineRead(db0: seq<MarkovNode<string>>, before: seq<MarkovNode<string>>, after: seq<MarkovNode<string>>,
                 comp: (string, string) -> bool, copy: string -> string, lines: seq<string>, i: nat, next: nat,
                 wordsCount: nat, count: nat, wordsToRead: int, stopped: bool)
    requires i < |lines| && next == i + 1 && wordsCount == |Corpus(lines[..i])|
    requires wordsCount <= count <= wordsCount + |Tokens(lines[i])|
    requires stopped ==> wordsCount < count == wordsToRead
    requires !stopped ==> count == wordsCount + |Tokens(lines[i])| && (wordsToRead >= 1 ==> count < wordsToRead)
    requires ReadsInto(db0, comp, copy, Corpus(lines[..i]), None, before)
    requires ReadsInto(before, comp, copy, LineWords(lines[i])[..count - wordsCount], None, after)
    ensures stopped ==> ReadsInto(db0, comp, copy, WordsRead(lines, wordsToRead), None, after)
    ensures !stopped ==> count == |Corpus(lines[..next])| && (wordsToRead >= 1 ==> count < wordsToRead)
    ensures !stopped ==> ReadsInto(db0, comp, copy, Corpus(lines[..next]), None, after)
  {
    var k := count - wordsCount;
    var part := LineWords(lines[i])[..k];
    if |part| != 0 {
      LineWordAt(lines[i], 0);
    }
    ReadWordsAppend(db0, comp, copy, Corpus(lines[..i]), part, None);
    CorpusSnoc(lines, i);
    if stopped {
      StoppedInLine(lines, i, k, wordsToRead);
    } else {
      assert part == LineWords(lines[i]);
    }
  }

  /** Reading that stops after word `k` of line `i` has read the corpus up to that word. */
  lemma StoppedInLine(lines: seq<string>, i: nat, k: nat, wordsToRead: int)
    requires i < |lines| && k <= |Tokens(lines[i])|
    requires 1 <= wordsToRead == |Corpus(lines[..i])| + k
    ensures WordsRead(lines, wordsToRead) == Corpus(lines[..i]) + LineWords(lines[i])[..k]
  {
    CorpusAtLine(lines, i);
    var done := Corpus(lines[..i]);
    var all := done + LineWords(lines[i]) + Corpus(lines[i + 1..]);
    assert all[..|done| + k] == done + LineWords(lines[i])[..k];
  }

  /** When the reading never stopped, every word of the corpus was read. */
  lemma AllLinesRead(lines: seq<string>, wordsToRead: int)
    requires wordsToRead >= 1 ==> |Corpus(lines[..|lines|])| < wordsToRead
    ensures WordsRead(lines, wordsToRead) == Corpus(lines[..|lines|])
  {
    assert lines[..|lines|] == lines;
  }

  /**
   * One pass of the token loop: add the word, and link the previous word of
   * the line to it when there is one.
   */
  method AddWord(chain: Chain<string>, word: string, prev: Option<nat>) returns (pos: nat)
    requires chain.Valid()
    requires prev.Some? ==> prev.value < |chain.database|
    modifies chain
    ensures chain.Valid()
    ensures chain.database == ReadWord(old(chain.database), chain.comp, chain.copy, prev, Word(word, prev.None?))
    ensures pos == Position(old(chain.database), chain.comp, word) && pos < |chain.database|
  {
    var newNode := chain.AddToDatabase(word);
    if prev.Some? {
      chain.AddNodeToFrequencyList(prev.value, newNode);
    }
    pos := newNode;
  }

  /**
   * One pass of the token loop of `fill_database`: token `j`, which is word
   * `j` of the line's words `words`, is added and linked from `prev`, and
   * `next` is the index of the token after it; the words left to read up to
   * `n` then give the same database `final`.
   */
  method ReadToken(chain: Chain<string>, tokens: seq<string>, j: nat, prev: Option<nat>, ghost words: seq<Word>, ghost n: nat,
                   ghost final: seq<MarkovNode<string>>) returns (pos: nat, next: nat)
    requires chain.Valid()
    requires j < n <= |words| && j < |tokens| && words[j] == Word(tokens[j], j == 0) && (prev.None? <==> j == 0)
    requires ReadsInto(chain.database, chain.comp, chain.copy, words[j..n], prev, final)
    modifies chain
    ensures chain.Valid()
    ensures next == j + 1 && pos < |chain.database|
    ensures ReadsInto(chain.database, chain.comp, chain.copy, words[next..n], Some(pos), final)
  {
    ReadOne(chain.database, chain.comp, chain.copy, words, j, n, prev, final);
    pos := AddWord(chain, tokens[j], prev);
    next := j + 1;
  }

  /**
   * The token loop of `fill_database` for one line, entered with `wordsCount`
   * words read: the line's words are read until the count reaches
   * `wordsToRead`, which `stopped` reports.
   */
  method ReadLine(chain: Chain<string>, line: string, wordsCount: nat, wordsToRead: int) returns (count: nat, stopped: bool)
    requires chain.Valid()
    requires wordsToRead >= 1 ==> wordsCount < wordsToRead
    modifies chain
    ensures chain.Valid()
    ensures wordsCount <= count <= wordsCount + |Tokens(line)|
    ensures stopped ==> wordsCount < count == wordsToRead
    ensures !stopped ==> count == wordsCount + |Tokens(line)| && (wordsToRead >= 1 ==> count < wordsToRead)
    ensures ReadsInto(old(chain.database), chain.comp, chain.copy, LineWords(line)[..count - wordsCount], None, chain.database)
  {
    var tokens := Tokens(line);
    LineWordsAre(line);
    count, stopped := ReadTokens(chain, tokens, wordsCount, wordsToRead, LineWords(line));
  }

  /**
   * `ReadLine` over the `tokens` of a line, whose words are `words`: the
   * words read are the first `count - wordsCount`.
   */
  method ReadTokens(chain: Chain<string>, tokens: seq<string>, wordsCount: nat, wordsToRead: int, ghost words: seq<Word>)
    returns (count: nat, stopped: bool)
    requires chain.Valid()
    requires |words| == |tokens| && forall k :: 0 <= k < |words| ==> words[k] == Word(tokens[k], k == 0)
    requires wordsToRead >= 1 ==> wordsCount < wordsToRead
    modifies chain
    ensures chain.Valid()
    ensures wordsCount <= count <= wordsCount + |tokens|
    ensures stopped ==> wordsCount < count == wordsToRead
    ensures !stopped ==> count == wordsCount + |tokens| && (wordsToRead >= 1 ==> count < wordsToRead)
    ensures ReadsInto(old(chain.database), chain.comp, chain.copy, words[..count - wordsCount], None, chain.database)
  {
    ghost var n := if 1 <= wordsToRead - wordsCount < |tokens| then wordsToRead - wordsCount else |tokens|;
    ghost var final := ReadWords(chain.database, chain.comp, chain.copy, words[0..n], None);
    ghost var prev;
    count, stopped, prev := TokenLoop(chain, tokens, wordsCount, wordsToRead, words, n, final);
    ReadLineExit(old(chain.database), chain.database, chain.comp, chain.copy, words, n, count - wordsCount, prev, final);
  }

  /**
   * The loop of `ReadLine` over the `tokens` of a line, whose words are
   * `words`: it reads words `0` to `n`, `n` being where the count reaches
   * `wordsToRead`, and leaves `prev` at the state of the last word read.
   */
  method TokenLoop(chain: Chain<string>, tokens: seq<string>, wordsCount: nat, wordsToRead: int,
                   ghost words: seq<Word>, ghost n: nat, ghost final: seq<MarkovNode<string>>)
    returns (count: nat, stopped: bool, ghost prev: Option<nat>)
    requires chain.Valid()
    requires |words| == |tokens| && forall k :: 0 <= k < |words| ==> words[k] == Word(tokens[k], k == 0)
    requires wordsToRead >= 1 ==> wordsCount < wordsToRead
    requires n == if 1 <= wordsToRead - wordsCount < |tokens| then wordsToRead - wordsCount else |tokens|
    requires ReadsInto(chain.database, chain.comp, chain.copy, words[0..n], None, final)
    modifies chain
    ensures chain.Valid()
    ensures count == wordsCount + n
    ensures stopped ==> wordsCount < count == wordsToRead
    ensures !stopped ==> count == wordsCount + |tokens| && (wordsToRead >= 1 ==> count < wordsToRead)
    ensures ReadsInto(chain.database, chain.comp, chain.copy, words[n..n], prev, final)
  {
    count := wordsCount;
    stopped := false;
    var last: Option<nat> := None;
    var j := 0;
    while j < |tokens|
      invariant 0 <= j <= n && count == wordsCount + j
      invariant wordsToRead >= 1 ==> count < wordsToRead
      invariant chain.Valid()
      invariant last.None? <==> j == 0
      invariant ReadsInto(chain.database, chain.comp, chain.copy, words[j..n], last, final)
    {
      var newNode;
      newNode, j := ReadToken(chain, tokens, j, last, words, n, final);
      count := count + 1;
      last := Some(newNode);
      if wordsToRead != MAX_WORD_TO_READ && count == wordsToRead {
        stopped := true;
        break;
      }
    }
    prev := last;
  }

  /**
   * One pass of the line loop of `fill_database`: the token loop over line `i`,
   * entered with the corpus before it read.
   */
  method ReadNextLine(chain: Chain<string>, lines: seq<string>, i: nat, wordsCount: nat, wordsToRead: int,
                      ghost db0: seq<MarkovNode<string>>) returns (count: nat, stopped: bool, next: nat)
    requires chain.Valid()
    requires i < |lines| && wordsCount == |Corpus(lines[..i])|
    requires wordsToRead >= 1 ==> wordsCount < wordsToRead
    requires ReadsInto(db0, chain.comp, chain.copy, Corpus(lines[..i]), None, chain.database)
    modifies chain
    ensures chain.Valid() && next == i + 1
    ensures stopped ==> ReadsInto(db0, chain.comp, chain.copy, WordsRead(lines, wordsToRead), None, chain.database)
    ensures !stopped ==> count == |Corpus(lines[..next])| && (wordsToRead >= 1 ==> count < wordsToRead)
    ensures !stopped ==> ReadsInto(db0, chain.comp, chain.copy, Corpus(lines[..next]), None, chain.database)
  {
    ghost var before := chain.database;
    count, stopped := ReadLine(chain, lines[i], wordsCount, wordsToRead);
    next := i + 1;
    LineRead(db0, before, chain.database, chain.comp, chain.copy, lines, i, next, wordsCount, count, wordsToRead, stopped);
  }

  /**
   * `fill_database`: every line is split into tokens; each token is added to
   * the database and linked from the token before it on the same line; once
   * `wordsToRead` words are read (unless it is `MAX_WORD_TO_READ`) the reading
   * stops.
   */
  method FillDatabase(chain: Chain<string>, lines: seq<string>, wordsToRead: int)
    requires chain.Valid()
    modifies chain
    ensures chain.Valid()
    ensures chain.database == ReadWords(old(chain.database), chain.comp, chain.copy, WordsRead(lines, wordsToRead), None)
  {
    ghost var db0 := chain.database;
    var wordsCount := 0;
    var i := 0;
    assert lines[..i] == [];
    assert Corpus(lines[..i]) == [];
    assert ReadsInto(db0, chain.comp, chain.copy, [], None, db0);
    while i < |lines|
      invariant 0 <= i <= |lines|
      invariant chain.Valid()
      invariant wordsCount == |Corpus(lines[..i])|
      invariant wordsToRead >= 1 ==> wordsCount < wordsToRead
      invariant ReadsInto(db0, chain.comp, chain.copy, Corpus(lines[..i]), None, chain.database)
    {
      var count, stopped;
      count, stopped, i := ReadNextLine(chain, lines, i, wordsCount, wordsToRead, db0);
      if stopped {
        return;
      }
      wordsCount := count;
    }
    AllLinesRead(lines, wordsToRead);
  }
}
