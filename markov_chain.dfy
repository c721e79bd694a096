/**
 * The generic Markov-chain engine: a database of unique states, a frequency
 * list per state, integer weighted sampling and the bounded random walk.
 *
 * A `Node *` of the engine's linked list, and the `MarkovNode *` it carries,
 * are modelled by the index of the state in the database; the database is
 * only ever appended to, so an index stays valid for the engine's lifetime.
 * Every call to `rand()` is replaced by an explicit draw (a `nat`).
 */
module MarkovChain {
  import opened Wrappers

  /** One entry of a frequency list: the index of the target state and its count. */
  datatype Frequency = Frequency(target: nat, frequency: nat)

  /** A state: its (copied) payload and its frequency list. */
  datatype MarkovNode<T> = MarkovNode(data: T, frequencies: seq<Frequency>)

  // ---------------------------------------------------------------------------
  // Random numbers
  // ---------------------------------------------------------------------------

  /**
   * `rand() % max_number`, with the value `rand()` returned given as `draw`.
   * The remainder is computed by repeated subtraction, which keeps the
   * non-linear `%` out of the proofs that use this function; the lemma below
   * shows the two agree.
   */
  function GetRandomNumber(maxNumber: int, draw: nat): (r: nat)
    requires maxNumber > 0
    ensures r < maxNumber
    ensures draw < maxNumber ==> r == draw
    decreases draw
  {
    if draw < maxNumber then draw else GetRandomNumber(maxNumber, draw - maxNumber)
  }

  /** The draw is reduced exactly as C's `%` reduces a non-negative `rand()` value. */
  lemma {:induction false} GetRandomNumberIsRemainder(maxNumber: int, draw: nat)
    requires maxNumber > 0
    ensures GetRandomNumber(maxNumber, draw) == draw % maxNumber
    decreases draw
  {
    if draw >= maxNumber {
      GetRandomNumberIsRemainder(maxNumber, draw - maxNumber);
      var q := (draw - maxNumber) / maxNumber;
      assert draw - maxNumber == q * maxNumber + (draw - maxNumber) % maxNumber;
      RemainderUnique(draw, maxNumber, q + 1, (draw - maxNumber) % maxNumber);
    }
  }

  /** A remainder in [0, m) is determined by the number and the divisor. */
  lemma RemainderUnique(d: int, m: int, q: int, r: int)
    requires m > 0 && 0 <= r < m && d == q * m + r
    ensures d % m == r
  {
    var k := q - d / m;
    assert d == (d / m) * m + d % m;
    assert k * m == d % m - r;
  }

  // ---------------------------------------------------------------------------
  // The caller-supplied behaviours and the database invariants
  // ---------------------------------------------------------------------------

  /** `comp` (standing for `comp_func(a, b) == 0`) finds every payload equal to itself, in either order. */
  ghost predicate IsEqualityTest<T(!new)>(comp: (T, T) -> bool) {
    && (forall x :: comp(x, x))
    && (forall x, y :: comp(x, y) ==> comp(y, x))
  }

  /**
   * What the engine relies on from its behaviours: `comp` is an equality test
   * and a copy compares exactly as its source does. (Transitivity is not needed.)
   */
  ghost predicate LawfulBehaviours<T(!new)>(comp: (T, T) -> bool, copy: T -> T) {
    IsEqualityTest(comp) && CopiesEqual(comp, copy)
  }

  ghost predicate CopiesEqual<T(!new)>(comp: (T, T) -> bool, copy: T -> T) {
    forall x, y :: comp(copy(x), y) == comp(x, y)
  }

  /** No two states of the database hold equal payloads. */
  ghost predicate NoDuplicates<T>(db: seq<MarkovNode<T>>, comp: (T, T) -> bool) {
    forall i, j {:trigger comp(db[i].data, db[j].data)} :: 0 <= i < j < |db| ==> !comp(db[i].data, db[j].data)
  }

  /** Targets exist in a database of `size` states, are distinct, and every count is at least 1. */
  predicate WellFormedList(fs: seq<Frequency>, size: nat) {
    && (forall i :: 0 <= i < |fs| ==> fs[i].target < size && fs[i].frequency >= 1)
    && (forall i, j :: 0 <= i < j < |fs| ==> fs[i].target != fs[j].target)
  }

  ghost predicate WellFormedDatabase<T>(db: seq<MarkovNode<T>>) {
    forall i {:trigger db[i].frequencies} :: 0 <= i < |db| ==> WellFormedList(db[i].frequencies, |db|)
  }

  lemma WellFormedListGrows(fs: seq<Frequency>, size: nat, larger: nat)
    requires WellFormedList(fs, size) && size <= larger
    ensures WellFormedList(fs, larger)
  {
  }

  /** Under the invariants, two states compare equal exactly when they are the same state. */
  lemma SameState<T(!new)>(db: seq<MarkovNode<T>>, comp: (T, T) -> bool, a: nat, b: nat)
    requires IsEqualityTest(comp) && NoDuplicates(db, comp)
    requires a < |db| && b < |db|
    ensures comp(db[a].data, db[b].data) <==> a == b
  {
    if a > b {
      assert !comp(db[b].data, db[a].data);
    }
  }

  // ---------------------------------------------------------------------------
  // The state database
  // ---------------------------------------------------------------------------

  /** The first state, in insertion order, whose payload compares equal to `data`. */
  function Find<T>(db: seq<MarkovNode<T>>, comp: (T, T) -> bool, data: T): (r: Option<nat>)
    ensures r.Some? ==> r.value < |db| && comp(db[r.value].data, data)
    ensures r.Some? ==> forall j :: 0 <= j < r.value ==> !comp(db[j].data, data)
    ensures r.None? <==> forall j :: 0 <= j < |db| ==> !comp(db[j].data, data)
    decreases |db|
  {
    if |db| == 0 then None
    else if comp(db[0].data, data) then Some(0)
    else match Find(db[1..], comp, data)
      case None => None
      case Some(k) => Some(k + 1)
  }

  /** The index `add_to_database` returns: the existing state, or the one it appends. */
  function Position<T>(db: seq<MarkovNode<T>>, comp: (T, T) -> bool, data: T): nat {
    match Find(db, comp, data)
    case Some(i) => i
    case None => |db|
  }

  /** The database after `add_to_database(data)`. */
  function Inserted<T>(db: seq<MarkovNode<T>>, comp: (T, T) -> bool, copy: T -> T, data: T): (r: seq<MarkovNode<T>>)
    ensures |db| <= |r| && r[..|db|] == db
  {
    if Find(db, comp, data).Some? then db else db + [MarkovNode(copy(data), [])]
  }

  /**
   * Inserting a payload already present changes nothing; inserting an absent one
   * appends exactly one state, holding a copy and an empty frequency list. In
   * both cases the returned position holds a payload equal to `data`, and the
   * invariants are kept.
   */
  lemma InsertedKeepsInvariants<T(!new)>(db: seq<MarkovNode<T>>, comp: (T, T) -> bool, copy: T -> T, data: T)
    requires LawfulBehaviours(comp, copy) && NoDuplicates(db, comp) && WellFormedDatabase(db)
    ensures var r := Inserted(db, comp, copy, data);
      && NoDuplicates(r, comp) && WellFormedDatabase(r)
      && Position(db, comp, data) < |r| && comp(r[Position(db, comp, data)].data, data)
      && (Find(db, comp, data).Some? ==> r == db)
      && (Find(db, comp, data).None? ==>
            |r| == |db| + 1 && r[|db|].data == copy(data) && r[|db|].frequencies == [])
  {
    var r := Inserted(db, comp, copy, data);
    if Find(db, comp, data).None? {
      assert comp(copy(data), data);
      forall i | 0 <= i < |r|
        ensures WellFormedList(r[i].frequencies, |r|)
      {
        if i < |db| {
          WellFormedListGrows(db[i].frequencies, |db|, |r|);
        }
      }
    }
  }

  /** The database after `add_to_database` is called on each of `xs` in turn. */
  function InsertAll<T>(db: seq<MarkovNode<T>>, comp: (T, T) -> bool, copy: T -> T, xs: seq<T>): seq<MarkovNode<T>>
    decreases |xs|
  {
    if |xs| == 0 then db
    else Inserted(InsertAll(db, comp, copy, xs[..|xs| - 1]), comp, copy, xs[|xs| - 1])
  }

  /** A payload found in a database is still found once states are appended. */
  lemma FindInExtension<T>(db: seq<MarkovNode<T>>, r: seq<MarkovNode<T>>, comp: (T, T) -> bool, x: T)
    requires |db| <= |r| && r[..|db|] == db && Find(db, comp, x).Some?
    ensures Find(r, comp, x).Some?
  {
    var i := Find(db, comp, x).value;
    assert r[i] == db[i];
  }

  /**
   * Uniqueness: after any sequence of insertions the database has no duplicates,
   * is well formed and keeps its earlier states.
   */
  lemma {:induction false} InsertAllKeepsInvariants<T(!new)>(db: seq<MarkovNode<T>>, comp: (T, T) -> bool, copy: T -> T, xs: seq<T>)
    requires LawfulBehaviours(comp, copy) && NoDuplicates(db, comp) && WellFormedDatabase(db)
    ensures var r := InsertAll(db, comp, copy, xs);
      NoDuplicates(r, comp) && WellFormedDatabase(r) && |db| <= |r| && r[..|db|] == db
    decreases |xs|
  {
    if xs != [] {
      var prev := InsertAll(db, comp, copy, xs[..|xs| - 1]);
      InsertAllKeepsInvariants(db, comp, copy, xs[..|xs| - 1]);
      InsertedKeepsInvariants(prev, comp, copy, xs[|xs| - 1]);
      var r := Inserted(prev, comp, copy, xs[|xs| - 1]);
      assert r[..|db|] == db by {
        assert r[..|prev|] == prev;
        assert prev[..|db|] == db;
      }
    }
  }

  /** After a sequence of insertions, every inserted payload has an equal state. */
  lemma {:induction false} InsertAllFinds<T(!new)>(db: seq<MarkovNode<T>>, comp: (T, T) -> bool, copy: T -> T, xs: seq<T>)
    requires LawfulBehaviours(comp, copy)
    ensures forall k :: 0 <= k < |xs| ==> Find(InsertAll(db, comp, copy, xs), comp, xs[k]).Some?
    decreases |xs|
  {
    if xs != [] {
      var init := xs[..|xs| - 1];
      var x := xs[|xs| - 1];
      var prev := InsertAll(db, comp, copy, init);
      InsertAllFinds(db, comp, copy, init);
      var r := Inserted(prev, comp, copy, x);
      assert InsertAll(db, comp, copy, xs) == r;
      forall k | 0 <= k < |xs|
        ensures Find(r, comp, xs[k]).Some?
      {
        if k < |xs| - 1 {
          assert xs[k] == init[k];
          FindInExtension(prev, r, comp, xs[k]);
        } else if Find(prev, comp, x).None? {
          assert comp(r[|prev|].data, x);
        }
      }
    }
  }

  /** After a sequence of insertions, every state gained equals one of the inserted payloads. */
  lemma {:induction false} InsertAllGains<T(!new)>(db: seq<MarkovNode<T>>, comp: (T, T) -> bool, copy: T -> T, xs: seq<T>)
    requires LawfulBehaviours(comp, copy)
    ensures var r := InsertAll(db, comp, copy, xs);
      forall i :: |db| <= i < |r| ==> exists k :: 0 <= k < |xs| && comp(r[i].data, xs[k])
    decreases |xs|
  {
    if xs != [] {
      var init := xs[..|xs| - 1];
      var x := xs[|xs| - 1];
      var prev := InsertAll(db, comp, copy, init);
      InsertAllGains(db, comp, copy, init);
      assert forall i :: |db| <= i < |InsertAll(db, comp, copy, init)| ==>
        exists k :: 0 <= k < |init| && comp(InsertAll(db, comp, copy, init)[i].data, init[k]);
      var r := Inserted(prev, comp, copy, x);
      assert InsertAll(db, comp, copy, xs) == r;
      forall i | |db| <= i < |r|
        ensures exists k :: 0 <= k < |xs| && comp(r[i].data, xs[k])
      {
        if i < |prev| {
          assert r[i] == prev[i];
          var k :| 0 <= k < |init| && comp(prev[i].data, init[k]);
          assert xs[k] == init[k];
        } else {
          assert comp(r[i].data, xs[|xs| - 1]);
        }
      }
    }
  }

  // ---------------------------------------------------------------------------
  // Frequency lists
  // ---------------------------------------------------------------------------

  /** The first entry of `fs` whose target is `target`. */
  function IndexOfTarget(fs: seq<Frequency>, target: nat): (r: Option<nat>)
    ensures r.Some? ==> r.value < |fs| && fs[r.value].target == target
    ensures r.Some? ==> forall j :: 0 <= j < r.value ==> fs[j].target != target
    ensures r.None? <==> forall j :: 0 <= j < |fs| ==> fs[j].target != target
    decreases |fs|
  {
    if |fs| == 0 then None
    else if fs[0].target == target then Some(0)
    else match IndexOfTarget(fs[1..], target)
      case None => None
      case Some(k) => Some(k + 1)
  }

  /** The frequency list after recording one more transition to `target`. */
  function Record(fs: seq<Frequency>, target: nat): (r: seq<Frequency>)
    ensures |fs| <= |r| <= |fs| + 1
    ensures forall j :: 0 <= j < |fs| ==> r[j].target == fs[j].target
  {
    match IndexOfTarget(fs, target)
    case Some(i) => fs[i := fs[i].(frequency := fs[i].frequency + 1)]
    case None => fs + [Frequency(target, 1)]
  }

  /** The database after `add_node_to_frequency_list(from, to)`. */
  function Linked<T>(db: seq<MarkovNode<T>>, from: nat, to: nat): (r: seq<MarkovNode<T>>)
    requires from < |db|
    ensures |r| == |db|
    ensures forall i :: 0 <= i < |db| ==> r[i].data == db[i].data
    ensures forall i :: 0 <= i < |db| && i != from ==> r[i] == db[i]
  {
    db[from := db[from].(frequencies := Record(db[from].frequencies, to))]
  }

  /** Linking two states keeps the database free of duplicates and well formed. */
  lemma LinkedKeepsInvariants<T>(db: seq<MarkovNode<T>>, comp: (T, T) -> bool, from: nat, to: nat)
    requires NoDuplicates(db, comp) && WellFormedDatabase(db) && from < |db| && to < |db|
    ensures NoDuplicates(Linked(db, from, to), comp) && WellFormedDatabase(Linked(db, from, to))
  {
    RecordKeepsWellFormed(db[from].frequencies, |db|, to);
  }

  /** A target already listed: only its entry changes, its count going up by one. */
  lemma RecordExisting(fs: seq<Frequency>, size: nat, target: nat, i: nat)
    requires WellFormedList(fs, size) && i < |fs| && fs[i].target == target
    ensures |Record(fs, target)| == |fs|
    ensures Record(fs, target)[i] == Frequency(target, fs[i].frequency + 1)
    ensures forall j :: 0 <= j < |fs| && j != i ==> Record(fs, target)[j] == fs[j]
  {
    assert IndexOfTarget(fs, target) == Some(i);
  }

  /** The first entry listing the target is the one whose count goes up. */
  lemma RecordFound(fs: seq<Frequency>, target: nat, i: nat)
    requires i < |fs| && fs[i].target == target
    requires forall j :: 0 <= j < i ==> fs[j].target != target
    ensures Record(fs, target) == fs[i := fs[i].(frequency := fs[i].frequency + 1)]
  {
    assert IndexOfTarget(fs, target) == Some(i);
  }

  /** A new target: one entry with count 1 is appended at the end. */
  lemma RecordAbsent(fs: seq<Frequency>, target: nat)
    requires forall j :: 0 <= j < |fs| ==> fs[j].target != target
    ensures Record(fs, target) == fs + [Frequency(target, 1)]
  {
  }

  /** Recording keeps targets distinct and in range and counts positive, and adds one to the total. */
  lemma RecordKeepsWellFormed(fs: seq<Frequency>, size: nat, target: nat)
    requires WellFormedList(fs, size) && target < size
    ensures WellFormedList(Record(fs, target), size)
    ensures Total(Record(fs, target)) == Total(fs) + 1
  {
    var r := Record(fs, target);
    match IndexOfTarget(fs, target)
    case Some(i) =>
      TotalUpdate(fs, i, fs[i].(frequency := fs[i].frequency + 1));
      assert r == fs[i := fs[i].(frequency := fs[i].frequency + 1)];
      assert forall j :: 0 <= j < |fs| ==> r[j].target == fs[j].target && r[j].frequency >= fs[j].frequency;
    case None =>
      assert r == fs + [Frequency(target, 1)];
      assert r[..|r| - 1] == fs;
      assert forall j :: 0 <= j < |fs| ==> r[j] == fs[j];
  }

  /** Whatever the list holds, recording one transition adds one to its total. */
  lemma RecordAddsOne(fs: seq<Frequency>, target: nat)
    ensures Total(Record(fs, target)) == Total(fs) + 1
  {
    match IndexOfTarget(fs, target)
    case Some(i) =>
      TotalUpdate(fs, i, fs[i].(frequency := fs[i].frequency + 1));
    case None =>
      var r := fs + [Frequency(target, 1)];
      assert r[..|r| - 1] == fs;
  }

  /** The number of transitions the database has recorded: the totals of all frequency lists. */
  function TransitionCount<T>(db: seq<MarkovNode<T>>): nat
    decreases |db|
  {
    if |db| == 0 then 0 else Total(db[0].frequencies) + TransitionCount(db[1..])
  }

  /** Replacing one state changes the count by the difference of the two totals. */
  lemma {:induction false} TransitionCountUpdate<T>(db: seq<MarkovNode<T>>, i: nat, node: MarkovNode<T>)
    requires i < |db|
    ensures TransitionCount(db[i := node]) + Total(db[i].frequencies) == TransitionCount(db) + Total(node.frequencies)
    decreases |db|
  {
    var r := db[i := node];
    if i == 0 {
      assert r[1..] == db[1..];
    } else {
      assert r[1..] == db[1..][i - 1 := node];
      TransitionCountUpdate(db[1..], i - 1, node);
    }
  }

  /** A new state brings its own list's total. */
  lemma {:induction false} TransitionCountAppend<T>(db: seq<MarkovNode<T>>, node: MarkovNode<T>)
    ensures TransitionCount(db + [node]) == TransitionCount(db) + Total(node.frequencies)
    decreases |db|
  {
    if db != [] {
      assert (db + [node])[1..] == db[1..] + [node];
      TransitionCountAppend(db[1..], node);
    }
  }

  /** Each `add_node_to_frequency_list` records exactly one transition more. */
  lemma LinkedAddsOne<T>(db: seq<MarkovNode<T>>, from: nat, to: nat)
    requires from < |db|
    ensures TransitionCount(Linked(db, from, to)) == TransitionCount(db) + 1
  {
    var node := db[from].(frequencies := Record(db[from].frequencies, to));
    TransitionCountUpdate(db, from, node);
    RecordAddsOne(db[from].frequencies, to);
  }

  /** `add_to_database` records no transition: a new state starts with an empty list. */
  lemma InsertedAddsNone<T>(db: seq<MarkovNode<T>>, comp: (T, T) -> bool, copy: T -> T, data: T)
    ensures TransitionCount(Inserted(db, comp, copy, data)) == TransitionCount(db)
  {
    if Find(db, comp, data).None? {
      TransitionCountAppend(db, MarkovNode(copy(data), []));
    }
  }

  /** Recording `n` transitions in a row. */
  function RecordTimes(fs: seq<Frequency>, target: nat, n: nat): seq<Frequency>
    decreases n
  {
    if n == 0 then fs else Record(RecordTimes(fs, target, n - 1), target)
  }

  /** One more link to the last entry of a list raises that entry's count. */
  lemma RecordLast(fs: seq<Frequency>, target: nat, m: nat)
    requires forall j :: 0 <= j < |fs| ==> fs[j].target != target
    ensures Record(fs + [Frequency(target, m)], target) == fs + [Frequency(target, m + 1)]
  {
    var prev := fs + [Frequency(target, m)];
    assert forall j :: 0 <= j < |fs| ==> prev[j] == fs[j];
    assert prev[|fs|].target == target;
    assert IndexOfTarget(prev, target) == Some(|fs|);
    assert prev[|fs| := Frequency(target, m + 1)] == fs + [Frequency(target, m + 1)];
  }

  /** Frequency accumulation: `n` links A -> B give a single entry for B with count `n`. */
  lemma {:induction false} RecordTimesCounts(fs: seq<Frequency>, target: nat, n: nat)
    requires n >= 1
    requires forall j :: 0 <= j < |fs| ==> fs[j].target != target
    ensures RecordTimes(fs, target, n) == fs + [Frequency(target, n)]
    decreases n
  {
    if n == 1 {
      RecordAbsent(fs, target);
    } else {
      RecordTimesCounts(fs, target, n - 1);
      assert RecordTimes(fs, target, n) == Record(fs + [Frequency(target, n - 1)], target);
      RecordLast(fs, target, n - 1);
    }
  }

  /** The count a frequency list records for `target`: zero when no entry lists it. */
  function Weight(fs: seq<Frequency>, target: nat): nat {
    match IndexOfTarget(fs, target)
    case Some(i) => fs[i].frequency
    case None => 0
  }

  /** How many transitions from state `p` to state `q` the database has recorded. */
  function PairCount<T>(db: seq<MarkovNode<T>>, p: nat, q: nat): nat {
    if p < |db| then Weight(db[p].frequencies, q) else 0
  }

  /** Recording a transition to `target` raises its count by one and no other target's. */
  lemma RecordWeight(fs: seq<Frequency>, target: nat, q: nat)
    ensures Weight(Record(fs, target), q) == Weight(fs, q) + (if q == target then 1 else 0)
  {
    var r := Record(fs, target);
    if IndexOfTarget(fs, target).Some? {
      var i := IndexOfTarget(fs, target).value;
      assert r == fs[i := fs[i].(frequency := fs[i].frequency + 1)];
      assert forall j :: 0 <= j < |fs| ==> r[j].target == fs[j].target;
      if IndexOfTarget(fs, q).Some? {
        assert IndexOfTarget(r, q) == IndexOfTarget(fs, q);
      } else {
        assert IndexOfTarget(r, q).None?;
      }
    } else {
      assert r == fs + [Frequency(target, 1)];
      assert forall j :: 0 <= j < |fs| ==> r[j] == fs[j];
      if IndexOfTarget(fs, q).Some? {
        assert IndexOfTarget(r, q) == IndexOfTarget(fs, q);
      } else if q == target {
        assert r[|fs|].target == q;
        assert forall j :: 0 <= j < |fs| ==> r[j].target != q;
        assert IndexOfTarget(r, q) == Some(|fs|);
      } else {
        assert IndexOfTarget(r, q).None?;
      }
    }
  }

  /** `add_node_to_frequency_list(from, to)` raises the count of the pair (from, to) by one and of no other pair. */
  lemma LinkedPairCount<T>(db: seq<MarkovNode<T>>, from: nat, to: nat, p: nat, q: nat)
    requires from < |db|
    ensures PairCount(Linked(db, from, to), p, q) == PairCount(db, p, q) + (if p == from && q == to then 1 else 0)
  {
    if p == from {
      RecordWeight(db[from].frequencies, to, q);
    }
  }

  /** `add_to_database` changes the count of no pair: a new state has no transitions. */
  lemma InsertedPairCount<T>(db: seq<MarkovNode<T>>, comp: (T, T) -> bool, copy: T -> T, data: T, p: nat, q: nat)
    ensures PairCount(Inserted(db, comp, copy, data), p, q) == PairCount(db, p, q)
  {
    var r := Inserted(db, comp, copy, data);
    if p < |db| {
      assert r[p] == db[p];
    }
  }

  // ---------------------------------------------------------------------------
  // Weighted sampling
  // ---------------------------------------------------------------------------

  /** The sum of the counts of a frequency list. */
  function Total(fs: seq<Frequency>): nat
    decreases |fs|
  {
    if |fs| == 0 then 0 else Total(fs[..|fs| - 1]) + fs[|fs| - 1].frequency
  }

  /** The running total grows by one entry's count at each step. */
  lemma TotalStep(fs: seq<Frequency>, i: nat)
    requires i < |fs|
    ensures Total(fs[..i + 1]) == Total(fs[..i]) + fs[i].frequency
    ensures Total(fs[..0]) == 0 && fs[..|fs|] == fs
  {
    assert fs[..i + 1][..i] == fs[..i];
    assert fs[..0] == [];
  }

  /** The running total never decreases. */
  lemma {:induction false} TotalMonotone(fs: seq<Frequency>, a: nat, b: nat)
    requires a <= b <= |fs|
    ensures Total(fs[..a]) <= Total(fs[..b])
    decreases b - a
  {
    if a < b {
      TotalStep(fs, b - 1);
      TotalMonotone(fs, a, b - 1);
    }
  }

  /** Every count is at least 1, so the total is at least the number of entries. */
  lemma {:induction false} TotalAtLeastLength(fs: seq<Frequency>)
    requires forall i :: 0 <= i < |fs| ==> fs[i].frequency >= 1
    ensures Total(fs) >= |fs|
    decreases |fs|
  {
    if fs != [] {
      TotalAtLeastLength(fs[..|fs| - 1]);
    }
  }

  /** Replacing one entry changes the total by the difference of the two counts. */
  lemma {:induction false} TotalUpdate(fs: seq<Frequency>, i: nat, e: Frequency)
    requires i < |fs|
    ensures Total(fs[i := e]) + fs[i].frequency == Total(fs) + e.frequency
    decreases |fs|
  {
    var r := fs[i := e];
    if i < |fs| - 1 {
      assert r[..|r| - 1] == fs[..|fs| - 1][i := e];
      TotalUpdate(fs[..|fs| - 1], i, e);
    } else {
      assert r[..|r| - 1] == fs[..|fs| - 1];
    }
  }

  /** The scan of the sampling loop, from entry `i` with `rest` of the draw left. */
  function ChooseFrom(fs: seq<Frequency>, i: nat, rest: nat): (k: nat)
    requires i < |fs| && Total(fs[..i]) + rest < Total(fs)
    ensures i <= k < |fs|
    ensures Total(fs[..k]) <= Total(fs[..i]) + rest < Total(fs[..k + 1])
    decreases |fs| - i
  {
    TotalStep(fs, i);
    if rest < fs[i].frequency then i
    else ChooseFrom(fs, i + 1, rest - fs[i].frequency)
  }

  /** The entry a draw `r` in [0, total) selects: the one whose band of the running total holds `r`. */
  function Choose(fs: seq<Frequency>, r: nat): (k: nat)
    requires r < Total(fs)
    ensures k < |fs| && Total(fs[..k]) <= r < Total(fs[..k + 1])
  {
    TotalStep(fs, 0);
    ChooseFrom(fs, 0, r)
  }

  /** Exactly one entry is selected: any entry whose band holds `r` is the chosen one. */
  lemma ChooseIsUnique(fs: seq<Frequency>, r: nat, k: nat)
    requires r < Total(fs) && k < |fs|
    requires Total(fs[..k]) <= r < Total(fs[..k + 1])
    ensures Choose(fs, r) == k
  {
    var c := Choose(fs, r);
    if c < k {
      TotalMonotone(fs, c + 1, k);
    } else if k < c {
      TotalMonotone(fs, k + 1, c);
    }
  }

  /**
   * Weighted-by-count sampling: entry `i` is chosen exactly for the draws in an
   * interval of width `fs[i].frequency`.
   */
  lemma ChooseBand(fs: seq<Frequency>, r: nat, i: nat)
    requires r < Total(fs) && i < |fs|
    ensures Choose(fs, r) == i <==> Total(fs[..i]) <= r < Total(fs[..i]) + fs[i].frequency
  {
    TotalStep(fs, i);
    if Total(fs[..i]) <= r < Total(fs[..i]) + fs[i].frequency {
      ChooseIsUnique(fs, r, i);
    }
  }

  /**
   * The scan of `get_next_random_node`: walk the list subtracting each count
   * from what is left of the draw, and stop at the first entry whose count
   * exceeds it.
   */
  function ScanFrom(fs: seq<Frequency>, rest: nat): (r: Option<nat>)
    ensures r.Some? ==> exists k :: 0 <= k < |fs| && fs[k].target == r.value
    decreases |fs|
  {
    if |fs| == 0 then None
    else if rest < fs[0].frequency then Some(fs[0].target)
    else
      var r := ScanFrom(fs[1..], rest - fs[0].frequency);
      assert r.Some? ==> exists k :: 1 <= k < |fs| && fs[k].target == r.value by {
        if r.Some? {
          var k :| 0 <= k < |fs[1..]| && fs[1..][k].target == r.value;
          assert fs[k + 1].target == r.value;
        }
      }
      r
  }

  /** The scan from entry `i` stops at the entry `ChooseFrom` selects. */
  lemma {:induction false} ScanFromChooses(fs: seq<Frequency>, i: nat, rest: nat)
    requires i < |fs| && Total(fs[..i]) + rest < Total(fs)
    ensures ScanFrom(fs[i..], rest) == Some(fs[ChooseFrom(fs, i, rest)].target)
    decreases |fs| - i
  {
    TotalStep(fs, i);
    assert fs[i..][0] == fs[i];
    if rest >= fs[i].frequency {
      assert fs[i..][1..] == fs[i + 1..];
      ScanFromChooses(fs, i + 1, rest - fs[i].frequency);
    }
  }

  /** The state `get_next_random_node` moves to, or None when the list is empty. */
  function NextState(fs: seq<Frequency>, draw: nat): (r: Option<nat>)
    requires forall i :: 0 <= i < |fs| ==> fs[i].frequency >= 1
    ensures r.None? <==> fs == []
    ensures r.Some? ==> exists k :: 0 <= k < |fs| && fs[k].target == r.value
  {
    if |fs| == 0 then None
    else
      TotalAtLeastLength(fs);
      var randNum := GetRandomNumber(Total(fs), draw);
      TotalStep(fs, 0);
      ScanFromChooses(fs, 0, randNum);
      assert fs[0..] == fs;
      ScanFrom(fs, randNum)
  }

  /**
   * Weighted-by-count sampling: from a well-formed list, the draw moves to the
   * target of entry k exactly when the random number it yields (below the
   * total count) falls in the band of width `fs[k].frequency` that starts at
   * the sum of the counts before k.
   */
  lemma NextStateBand(fs: seq<Frequency>, size: nat, draw: nat, k: nat)
    requires WellFormedList(fs, size) && k < |fs|
    ensures Total(fs) > 0
    ensures NextState(fs, draw) == Some(fs[k].target) <==>
      Total(fs[..k]) <= GetRandomNumber(Total(fs), draw) < Total(fs[..k]) + fs[k].frequency
  {
    TotalAtLeastLength(fs);
    var randNum := GetRandomNumber(Total(fs), draw);
    TotalStep(fs, 0);
    ScanFromChooses(fs, 0, randNum);
    assert fs[0..] == fs;
    var c := ChooseFrom(fs, 0, randNum);
    assert NextState(fs, draw) == Some(fs[c].target);
    ChooseBand(fs, randNum, k);
    assert Choose(fs, randNum) == c;
  }

  /**
   * `get_next_random_node` on the frequency list of the current state: total
   * the counts, then scan subtracting each count from the draw.
   */
  method GetNextRandomNode(fs: seq<Frequency>, draw: nat) returns (next: Option<nat>)
    requires forall i :: 0 <= i < |fs| ==> fs[i].frequency >= 1
    ensures next == NextState(fs, draw)
  {
    if |fs| == 0 {
      return None;
    }
    var total := 0;
    var i := 0;
    while i < |fs|
      invariant 0 <= i <= |fs|
      invariant total == Total(fs[..i])
    {
      TotalStep(fs, i);
      total := total + fs[i].frequency;
      i := i + 1;
    }
    TotalAtLeastLength(fs);
    var r0 := GetRandomNumber(total, draw);
    var randNum: int := r0;
    TotalStep(fs, 0);
    assert fs[0..] == fs;
    i := 0;
    while i < |fs|
      invariant 0 <= i <= |fs|
      invariant 0 <= randNum && randNum + Total(fs[..i]) == r0
      invariant ScanFrom(fs[i..], randNum) == ScanFrom(fs, r0)
    {
      TotalStep(fs, i);
      assert fs[i..][0] == fs[i];
      if randNum < fs[i].frequency {
        return Some(fs[i].target);
      }
      assert fs[i..][1..] == fs[i + 1..];
      randNum := randNum - fs[i].frequency;
      i := i + 1;
    }
    // The fallback draw of a uniformly random entry is never reached: the
    // scan always stops within the list because r0 < total.
    assert false;
  }

  // ---------------------------------------------------------------------------
  // The random walk
  // ---------------------------------------------------------------------------

  /**
   * The start state `get_first_random_node` settles on, one draw per attempt:
   * the first drawn state that is not terminal, or None if every draw given
   * lands on a terminal state.
   */
  function FirstNonTerminal<T>(db: seq<MarkovNode<T>>, isLast: T -> bool, draws: seq<nat>): (r: Option<nat>)
    requires |db| > 0
    ensures r.Some? ==> r.value < |db| && !isLast(db[r.value].data)
    decreases |draws|
  {
    if |draws| == 0 then None
    else
      var index := GetRandomNumber(|db|, draws[0]);
      if !isLast(db[index].data) then Some(index) else FirstNonTerminal(db, isLast, draws[1..])
  }

  /**
   * The start state is the state the first draw that lands on a non-terminal
   * state selects, and there is none exactly when every draw lands on a
   * terminal state.
   */
  lemma {:induction false} FirstNonTerminalIsFirstHit<T>(db: seq<MarkovNode<T>>, isLast: T -> bool, draws: seq<nat>)
    requires |db| > 0
    ensures FirstNonTerminal(db, isLast, draws).Some? ==>
      exists k :: 0 <= k < |draws| && FirstNonTerminal(db, isLast, draws).value == GetRandomNumber(|db|, draws[k])
        && forall j :: 0 <= j < k ==> isLast(db[GetRandomNumber(|db|, draws[j])].data)
    ensures FirstNonTerminal(db, isLast, draws).None? <==>
      forall k :: 0 <= k < |draws| ==> isLast(db[GetRandomNumber(|db|, draws[k])].data)
    decreases |draws|
  {
    if draws != [] && isLast(db[GetRandomNumber(|db|, draws[0])].data) {
      var tail := draws[1..];
      FirstNonTerminalIsFirstHit(db, isLast, tail);
      assert forall k :: 1 <= k < |draws| ==> draws[k] == tail[k - 1];
      if FirstNonTerminal(db, isLast, tail).Some? {
        var k :| 0 <= k < |tail| && FirstNonTerminal(db, isLast, tail).value == GetRandomNumber(|db|, tail[k])
          && forall j :: 0 <= j < k ==> isLast(db[GetRandomNumber(|db|, tail[j])].data);
        assert forall j :: 1 <= j < k + 1 ==> isLast(db[GetRandomNumber(|db|, draws[j])].data) by {
          forall j | 1 <= j < k + 1 ensures isLast(db[GetRandomNumber(|db|, draws[j])].data) {
            assert draws[j] == tail[j - 1];
          }
        }
        assert draws[k + 1] == tail[k];
      }
    }
  }

  /**
   * The states emitted after `cur` by the passes `i`, `i + 1`, ... of the loop
   * of `generate_random_sequence` that stay below `limit`; pass k samples with
   * `draws[k]`. The walk ends after a terminal state or at a state with no
   * transitions.
   */
  function WalkFrom<T>(db: seq<MarkovNode<T>>, isLast: T -> bool, cur: nat, i: nat, limit: int, draws: seq<nat>): (r: seq<nat>)
    requires WellFormedDatabase(db) && cur < |db| && limit <= |draws|
    ensures |r| <= if i < limit then limit - i else 0
    ensures forall k :: 0 <= k < |r| ==> r[k] < |db|
    decreases limit - i
  {
    if i >= limit then []
    else match NextState(db[cur].frequencies, draws[i])
      case None => []
      case Some(next) =>
        [next] + if isLast(db[next].data) then [] else WalkFrom(db, isLast, next, i + 1, limit, draws)
  }

  /**
   * The states `generate_random_sequence` emits from `start` with a length cap
   * of `maxLength`: the start state is always emitted, so a cap below one
   * still gives one state.
   */
  function Walk<T>(db: seq<MarkovNode<T>>, isLast: T -> bool, start: nat, maxLength: int, draws: seq<nat>): (r: seq<nat>)
    requires WellFormedDatabase(db) && start < |db| && maxLength - 1 <= |draws|
    ensures 1 <= |r| <= (if maxLength <= 1 then 1 else maxLength)
    ensures r[0] == start
    ensures forall k :: 0 <= k < |r| ==> r[k] < |db|
  {
    [start] + WalkFrom(db, isLast, start, 0, maxLength - 1, draws)
  }

  /**
   * The text `generate_random_sequence` prints for a walk: the first state and
   * a space, then each later state followed by a space unless it is terminal.
   */
  function Printed<T>(db: seq<MarkovNode<T>>, render: T -> string, isLast: T -> bool, walk: seq<nat>): (r: string)
    requires |walk| > 0 && forall k :: 0 <= k < |walk| ==> walk[k] < |db|
    ensures |render(db[walk[0]].data)| < |r|
    ensures r[..|render(db[walk[0]].data)| + 1] == render(db[walk[0]].data) + " "
    decreases |walk|
  {
    if |walk| == 1 then render(db[walk[0]].data) + " "
    else
      var last := walk[|walk| - 1];
      assert walk[..|walk| - 1][0] == walk[0];
      Printed(db, render, isLast, walk[..|walk| - 1]) + render(db[last].data) + if isLast(db[last].data) then "" else " "
  }

  /**
   * Printing one more state appends its rendering to the text, then a space
   * unless it is terminal.
   */
  lemma PrintedAppend<T>(db: seq<MarkovNode<T>>, render: T -> string, isLast: T -> bool, walk: seq<nat>, next: nat)
    requires |walk| > 0 && (forall k :: 0 <= k < |walk| ==> walk[k] < |db|) && next < |db|
    ensures isLast(db[next].data) ==>
      Printed(db, render, isLast, walk + [next]) == Printed(db, render, isLast, walk) + render(db[next].data)
    ensures !isLast(db[next].data) ==>
      Printed(db, render, isLast, walk + [next]) == Printed(db, render, isLast, walk) + render(db[next].data) + " "
  {
    assert (walk + [next])[..|walk|] == walk;
    var text := Printed(db, render, isLast, walk) + render(db[next].data);
    assert text + "" == text;
  }

  /** Each state of a walk's remainder is the one its pass's draw selects from the state before it. */
  lemma {:induction false} WalkFromFollowsDraws<T>(db: seq<MarkovNode<T>>, isLast: T -> bool, cur: nat, i: nat, limit: int, draws: seq<nat>, w: seq<nat>)
    requires WellFormedDatabase(db) && cur < |db| && limit <= |draws|
    requires w == WalkFrom(db, isLast, cur, i, limit, draws)
    ensures w != [] ==> NextState(db[cur].frequencies, draws[i]) == Some(w[0])
    ensures forall k :: 0 <= k < |w| - 1 ==> NextState(db[w[k]].frequencies, draws[i + k + 1]) == Some(w[k + 1])
  {
    forall k | 0 <= k < |w| - 1
      ensures NextState(db[w[k]].frequencies, draws[i + k + 1]) == Some(w[k + 1])
    {
      WalkFromStep(db, isLast, cur, i, limit, draws, w, k);
    }
  }

  /** The step from the k-th to the (k + 1)-th state of a walk is the sample of pass i + k + 1. */
  lemma {:induction false} WalkFromStep<T>(db: seq<MarkovNode<T>>, isLast: T -> bool, cur: nat, i: nat, limit: int, draws: seq<nat>,
                                          w: seq<nat>, k: nat)
    requires WellFormedDatabase(db) && cur < |db| && limit <= |draws|
    requires w == WalkFrom(db, isLast, cur, i, limit, draws)
    requires k < |w| - 1
    ensures NextState(db[w[k]].frequencies, draws[i + k + 1]) == Some(w[k + 1])
    decreases k
  {
    var next := NextState(db[cur].frequencies, draws[i]).value;
    var rest := WalkFrom(db, isLast, next, i + 1, limit, draws);
    assert w == [next] + rest;
    if k == 0 {
      assert rest != [];
    } else {
      WalkFromStep(db, isLast, next, i + 1, limit, draws, rest, k - 1);
      assert i + k + 1 == (i + 1) + (k - 1) + 1;
    }
  }


  /** Only the last state of a walk's remainder can be terminal. */
  lemma {:induction false} WalkFromNoTerminalInside<T>(db: seq<MarkovNode<T>>, isLast: T -> bool, cur: nat, i: nat, limit: int, draws: seq<nat>, w: seq<nat>)
    requires WellFormedDatabase(db) && cur < |db| && limit <= |draws|
    requires w == WalkFrom(db, isLast, cur, i, limit, draws)
    ensures forall k :: 0 <= k < |w| - 1 ==> !isLast(db[w[k]].data)
    decreases limit - i
  {
    if i < limit && NextState(db[cur].frequencies, draws[i]).Some? {
      var next := NextState(db[cur].frequencies, draws[i]).value;
      if !isLast(db[next].data) {
        var rest := WalkFrom(db, isLast, next, i + 1, limit, draws);
        WalkFromNoTerminalInside(db, isLast, next, i + 1, limit, draws, rest);
        assert w == [next] + rest;
        forall k | 0 <= k < |w| - 1
          ensures !isLast(db[w[k]].data)
        {
          if k > 0 {
            assert w[k] == rest[k - 1];
          }
        }
      }
    }
  }

  /** A walk's remainder that uses fewer passes than remain stopped at a terminal state or at a state without transitions. */
  lemma {:induction false} WalkFromStops<T>(db: seq<MarkovNode<T>>, isLast: T -> bool, cur: nat, i: nat, limit: int, draws: seq<nat>, w: seq<nat>)
    requires WellFormedDatabase(db) && cur < |db| && limit <= |draws|
    requires w == WalkFrom(db, isLast, cur, i, limit, draws)
    ensures i + |w| < limit && w == [] ==> db[cur].frequencies == []
    ensures i + |w| < limit && w != [] ==> isLast(db[w[|w| - 1]].data) || db[w[|w| - 1]].frequencies == []
    decreases limit - i
  {
    if i < limit && NextState(db[cur].frequencies, draws[i]).Some? {
      var next := NextState(db[cur].frequencies, draws[i]).value;
      if !isLast(db[next].data) {
        var rest := WalkFrom(db, isLast, next, i + 1, limit, draws);
        WalkFromStops(db, isLast, next, i + 1, limit, draws, rest);
        assert w == [next] + rest;
        assert rest != [] ==> w[|w| - 1] == rest[|rest| - 1];
      }
    }
  }

  /** At pass k the walk moves to the state the k-th draw selects from the transitions listed for the current state. */
  lemma WalkFollowsDraws<T>(db: seq<MarkovNode<T>>, isLast: T -> bool, start: nat, maxLength: int, draws: seq<nat>, w: seq<nat>)
    requires WellFormedDatabase(db) && start < |db| && maxLength - 1 <= |draws|
    requires w == Walk(db, isLast, start, maxLength, draws)
    ensures forall k :: 0 <= k < |w| - 1 ==> NextState(db[w[k]].frequencies, draws[k]) == Some(w[k + 1])
  {
    var rest := WalkFrom(db, isLast, start, 0, maxLength - 1, draws);
    WalkFromFollowsDraws(db, isLast, start, 0, maxLength - 1, draws, rest);
    forall k | 0 <= k < |w| - 1
      ensures NextState(db[w[k]].frequencies, draws[k]) == Some(w[k + 1])
    {
      assert w[k + 1] == rest[k];
      if k > 0 {
        assert w[k] == rest[k - 1];
      }
    }
  }

  /**
   * The walk emits no terminal state except possibly the first and the last,
   * and when it is shorter than the cap it stopped right after a terminal state
   * or at a state with no transitions.
   */
  lemma WalkStops<T>(db: seq<MarkovNode<T>>, isLast: T -> bool, start: nat, maxLength: int, draws: seq<nat>, w: seq<nat>)
    requires WellFormedDatabase(db) && start < |db| && maxLength - 1 <= |draws|
    requires w == Walk(db, isLast, start, maxLength, draws)
    ensures forall k :: 1 <= k < |w| - 1 ==> !isLast(db[w[k]].data)
    ensures |w| < maxLength ==> (|w| > 1 && isLast(db[w[|w| - 1]].data)) || db[w[|w| - 1]].frequencies == []
  {
    var rest := WalkFrom(db, isLast, start, 0, maxLength - 1, draws);
    WalkFromNoTerminalInside(db, isLast, start, 0, maxLength - 1, draws, rest);
    WalkFromStops(db, isLast, start, 0, maxLength - 1, draws, rest);
    forall k | 1 <= k < |w| - 1
      ensures !isLast(db[w[k]].data)
    {
      assert w[k] == rest[k - 1];
    }
    assert rest != [] ==> w[|w| - 1] == rest[|rest| - 1];
  }

  /**
   * Pass i of the loop of `generate_random_sequence`, seen on the whole walk:
   * from the state at position i (the start, or a non-terminal state) the
   * draw `draws[i]` either finds no transition and the walk ends there, or it
   * selects the state at position i + 1, where the walk ends if that state is
   * terminal.
   */
  lemma WalkStep<T>(db: seq<MarkovNode<T>>, isLast: T -> bool, start: nat, maxLength: int, draws: seq<nat>, w: seq<nat>, i: nat)
    requires WellFormedDatabase(db) && start < |db| && maxLength - 1 <= |draws|
    requires w == Walk(db, isLast, start, maxLength, draws)
    requires i < |w| && i < maxLength - 1 && (i == 0 || !isLast(db[w[i]].data))
    ensures w[i] < |db|
    ensures NextState(db[w[i]].frequencies, draws[i]).None? ==> |w| == i + 1
    ensures NextState(db[w[i]].frequencies, draws[i]).Some? ==>
      i + 1 < |w| && w[i + 1] == NextState(db[w[i]].frequencies, draws[i]).value
    ensures NextState(db[w[i]].frequencies, draws[i]).Some? && isLast(db[NextState(db[w[i]].frequencies, draws[i]).value].data) ==>
      |w| == i + 2
  {
    WalkFollowsDraws(db, isLast, start, maxLength, draws, w);
    WalkStops(db, isLast, start, maxLength, draws, w);
    if |w| == i + 1 {
      assert db[w[i]].frequencies == [];
      assert NextState(db[w[i]].frequencies, draws[i]).None?;
    } else {
      assert NextState(db[w[i]].frequencies, draws[i]) == Some(w[i + 1]);
    }
  }

  /**
   * Pass i of the loop of `generate_random_sequence`, on the states emitted so
   * far: they are the first i + 1 states of the walk, and the state the pass
   * samples either ends the walk or extends them to its first i + 2 states.
   */
  lemma EmitPass<T>(db: seq<MarkovNode<T>>, isLast: T -> bool, start: nat, maxLength: int, draws: seq<nat>, w: seq<nat>,
                    i: nat, emitted: seq<nat>, next: Option<nat>)
    requires WellFormedDatabase(db) && start < |db| && maxLength - 1 <= |draws|
    requires w == Walk(db, isLast, start, maxLength, draws)
    requires i < maxLength - 1 && |emitted| == i + 1 <= |w| && emitted == w[..i + 1]
    requires i == 0 || !isLast(db[w[i]].data)
    requires next == NextState(db[w[i]].frequencies, draws[i])
    ensures next.None? ==> emitted == w
    ensures next.Some? ==> next.value < |db| && i + 2 <= |w| && emitted + [next.value] == w[..i + 2] && next.value == w[i + 1]
    ensures next.Some? && isLast(db[next.value].data) ==> emitted + [next.value] == w
  {
    WalkStep(db, isLast, start, maxLength, draws, w, i);
    if next.Some? {
      assert w[..i + 2] == w[..i + 1] + [w[i + 1]];
    }
  }

  /**
   * The printing loop of `generate_random_sequence` once its first state is
   * known: print the state, then one sampled successor per pass, a space after
   * every state that is not terminal.
   */
  method EmitFrom<T>(db: seq<MarkovNode<T>>, render: T -> string, isLast: T -> bool, first: nat, maxLength: int, draws: seq<nat>)
    returns (walk: seq<nat>, output: string)
    requires WellFormedDatabase(db) && first < |db| && maxLength - 1 <= |draws|
    ensures walk == Walk(db, isLast, first, maxLength, draws)
    ensures (forall k :: 0 <= k < |walk| ==> walk[k] < |db|) && output == Printed(db, render, isLast, walk)
  {
    var cur: nat := first;
    walk := [cur];
    output := render(db[cur].data) + " ";
    ghost var whole := Walk(db, isLast, first, maxLength, draws);
    var i: nat := 0;
    while i < maxLength - 1
      invariant |walk| == i + 1 <= |whole| && walk == whole[..i + 1] && cur == whole[i]
      invariant i == 0 || !isLast(db[cur].data)
      invariant output == Printed(db, render, isLast, walk)
    {
      var next := GetNextRandomNode(db[cur].frequencies, draws[i]);
      EmitPass(db, isLast, first, maxLength, draws, whole, i, walk, next);
      if next.None? {
        break;
      }
      PrintedAppend(db, render, isLast, walk, next.value);
      walk := walk + [next.value];
      output := output + render(db[next.value].data);
      if isLast(db[next.value].data) {
        break;
      }
      output := output + " ";
      cur := next.value;
      i := i + 1;
    }
  }

  // ---------------------------------------------------------------------------
  // The engine
  // ---------------------------------------------------------------------------

  /**
   * `MarkovChain`: the database and the four behaviours. `comp(a, b)` stands for
   * `comp_func(a, b) == EXIT_SUCCESS`, i.e. the payloads compare equal.
   */
  class Chain<T(!new)> {
    const comp: (T, T) -> bool
    const copy: T -> T
    const isLast: T -> bool
    const render: T -> string
    var database: seq<MarkovNode<T>>

    ghost predicate Valid()
      reads this
    {
      LawfulBehaviours(comp, copy) && NoDuplicates(database, comp) && WellFormedDatabase(database)
    }

    /** A chain with an empty database (the drivers' `create_chain`). */
    constructor (comp: (T, T) -> bool, copy: T -> T, isLast: T -> bool, render: T -> string)
      requires LawfulBehaviours(comp, copy)
      ensures Valid() && database == []
      ensures this.comp == comp && this.copy == copy && this.isLast == isLast && this.render == render
    {
      this.comp := comp;
      this.copy := copy;
      this.isLast := isLast;
      this.render := render;
      database := [];
    }

    /** `get_node_from_database`: linear scan in insertion order for an equal payload. */
    method GetNodeFromDatabase(data: T) returns (r: Option<nat>)
      ensures r == Find(database, comp, data)
    {
      if |database| == 0 {
        return None;
      }
      var index := 0;
      while index < |database|
        invariant 0 <= index <= |database|
        invariant forall j :: 0 <= j < index ==> !comp(database[j].data, data)
      {
        if comp(database[index].data, data) {
          return Some(index);
        }
        index := index + 1;
      }
      return None;
    }

    /** `add_to_database`: the existing state for `data`, or a new last state holding a copy of it. */
    method AddToDatabase(data: T) returns (r: nat)
      requires Valid()
      modifies this
      ensures Valid()
      ensures database == Inserted(old(database), comp, copy, data)
      ensures r == Position(old(database), comp, data)
      ensures r < |database| && comp(database[r].data, data)
    {
      InsertedKeepsInvariants(database, comp, copy, data);
      var checkNode := GetNodeFromDatabase(data);
      if checkNode.Some? {
        return checkNode.value;
      }
      database := database + [MarkovNode(copy(data), [])];
      r := |database| - 1;
    }

    /** `add_node_to_frequency_list`: count one more transition from state `first` to state `second`. */
    method AddNodeToFrequencyList(first: nat, second: nat)
      requires Valid() && first < |database| && second < |database|
      modifies this
      ensures Valid()
      ensures database == Linked(old(database), first, second)
    {
      var db := database;
      var fs := db[first].frequencies;
      LinkedKeepsInvariants(db, comp, first, second);
      var i := 0;
      while i < |fs|
        invariant 0 <= i <= |fs|
        invariant database == db
        invariant forall j :: 0 <= j < i ==> fs[j].target != second
      {
        SameState(db, comp, fs[i].target, second);
        if comp(db[fs[i].target].data, db[second].data) {
          RecordFound(fs, second, i);
          database := db[first := db[first].(frequencies := fs[i := fs[i].(frequency := fs[i].frequency + 1)])];
          return;
        }
        i := i + 1;
      }
      RecordAbsent(fs, second);
      database := database[first := database[first].(frequencies := fs + [Frequency(second, 1)])];
    }

    /** `get_first_random_node`: the rejection loop, one draw per attempt. */
    method GetFirstRandomNode(draws: seq<nat>) returns (r: Option<nat>)
      requires |database| > 0
      ensures r == FirstNonTerminal(database, isLast, draws)
    {
      var k := 0;
      while k < |draws|
        invariant 0 <= k <= |draws|
        invariant FirstNonTerminal(database, isLast, draws) == FirstNonTerminal(database, isLast, draws[k..])
      {
        var randNum := GetRandomNumber(|database|, draws[k]);
        assert draws[k..][1..] == draws[k + 1..];
        if !isLast(database[randNum].data) {
          return Some(randNum);
        }
        k := k + 1;
      }
      return None;
    }


    /**
     * `generate_random_sequence`: the states emitted and the text printed. A
     * missing start is chosen by `get_first_random_node` from `startDraws`;
     * `draws[i]` is the draw of the i-th pass of the sampling loop. When no
     * start state can be found with the draws given, nothing is emitted.
     */
    method GenerateRandomSequence(firstNode: Option<nat>, maxLength: int, startDraws: seq<nat>, draws: seq<nat>)
      returns (walk: seq<nat>, output: string)
      requires WellFormedDatabase(database)
      requires firstNode.Some? ==> firstNode.value < |database|
      requires firstNode.None? ==> |database| > 0
      requires maxLength - 1 <= |draws|
      ensures firstNode.Some? ==> walk == Walk(database, isLast, firstNode.value, maxLength, draws)
      ensures firstNode.None? ==>
        match FirstNonTerminal(database, isLast, startDraws)
        case None => walk == []
        case Some(start) => walk == Walk(database, isLast, start, maxLength, draws)
      ensures walk != [] ==>
        (forall k :: 0 <= k < |walk| ==> walk[k] < |database|) && output == Printed(database, render, isLast, walk)
      ensures walk == [] ==> output == ""
    {
      var start := firstNode;
      if start.None? {
        start := GetFirstRandomNode(startDraws);
        if start.None? {
          return [], "";
        }
      }
      walk, output := EmitFrom(database, render, isLast, start.value, maxLength, draws);
    }

  }
}
