# Markov-chain tweets and snakes-and-ladders, modelled in Dafny

The repository is a small C library for first-order Markov chains, plus two
programs that drive it:

- **The engine** (`markov_chain.c`) keeps a database of unique states, each
  with a payload and a frequency list (target state, count). It adds states
  and counts transitions. It draws a random starting state that is not
  terminal. It picks a successor with probability proportional to its count,
  and generates a random walk of bounded length.
- **The tweets generator** (`tweets_generator.c`) splits a corpus into words.
  It records every pair of consecutive words on a line as a transition,
  optionally stopping after a given number of words. A generated tweet ends
  at the first word ending in a full stop or after 20 words. The model also
  ends it at a word with no successor (see "Left out").
- **The snakes-and-ladders driver** (`snakes_and_ladders.c`) builds a
  100-cell board from a fixed table of 20 ladders and snakes. Each cell's
  transitions are its single forced jump, or one dice move for each of the
  next six cells up to the last one.

The Dafny project has one module per source file. The modules are
`MarkovChain` (`markov_chain.dfy`), `TweetsGenerator`
(`tweets_generator.dfy`) and `SnakesAndLadders` (`snakes_and_ladders.dfy`).
A small `Wrappers` module (`wrappers.dfy`) holds the `Option` type.

How the C program is represented:

- **Engine object.** `MarkovChain.Chain<T>` is a class. Its field
  `database: seq<MarkovNode<T>>` is updated in place by `AddToDatabase` and
  `AddNodeToFrequencyList`. The four behaviour callbacks are its constant
  fields.
- **Pointers become indices.** A `Node *` or `MarkovNode *` is the index of
  its state in the database. This is sound because the database is only
  ever appended to.
- **Randomness.** Every value `rand()` would return is an explicit draw
  parameter.
- **`comp(a, b)`.** It stands for `comp_func(a, b) == 0`.
- **Class invariant.** `Chain.Valid()` requires three things:
  - `LawfulBehaviours`: `comp` is reflexive and symmetric, and a copy
    compares exactly like its original;
  - `NoDuplicates`: no two states compare equal;
  - `WellFormedDatabase`: targets exist and are distinct, and every count
    is at least 1.
- **Methods and specifications.** Each loop of the modelled core, other
  than pointer walks replaced by indexing, is a method with invariants. The method is proved against a specification function, and
  the properties the source promises are proved about that function. Some
  examples:
  - `Find` specifies `get_node_from_database`.
  - `Inserted` specifies `add_to_database`.
  - `Linked` and `Record` specify `add_node_to_frequency_list`.
  - `NextState` specifies `get_next_random_node`.
  - `FirstNonTerminal` specifies `get_first_random_node`.
  - `Walk` and `Printed` specify `generate_random_sequence`.
  - `ReadWords` over `WordsRead` specifies `fill_database`.
  - `BoardCell` specifies `create_board`.
  - `Transitions` specifies `fill_database_snakes`.
- **Split loops.** The long loops of `fill_database` and
  `fill_database_snakes` are split into one method per loop body. In the
  tweets driver these are `ReadNextLine`, `ReadLine`, `ReadTokens`,
  `TokenLoop`, `ReadToken` and `AddWord`. In the snakes driver they are
  `AddCells`, `LinkCell`, `LinkJump`, `LinkDice`, `LinkTo` and
  `LookUpCell`. Together they perform the same calls, in the same order,
  as the source.

What the proofs establish, beyond each operation meeting its
specification:

- The engine's invariants survive any sequence of insertions and links.
- Every inserted payload is found afterwards, and no other payload is
  added.
- `n` links from A to B leave a single entry for B with count `n`.
- Each link adds exactly one transition.
- Sampling is weighted by count: entry `k` is chosen for exactly the draws
  in a band of width equal to its count.
- The uniform fallback draw at the end of `get_next_random_node` can never
  be reached, because counts are at least 1.
- A walk has at least 1 and at most `max(max_length, 1)` states, since the
  first state is printed before the loop. It follows its draws. No state
  but the first and the last is terminal: a start state the caller
  supplies is not checked.
- `strtok` splitting:
  - every token is a non-empty word free of delimiters;
  - the tokens concatenated are the line's non-delimiter characters;
  - words joined by spaces split back into themselves.
- `fill_database` records exactly one transition per pair of consecutive
  words within a line and none across lines. The count from the state of
  word u to the state of word v is the number of times v follows u on a
  line of the words read. Its states' payloads are exactly the words read.
- A generated tweet of two words or more that ends at a terminal word ends
  with its full stop.
- The board puts at most one jump on a cell, and every target is on the
  board.
- The snakes database meets the engine's invariants.
- A game walk that stops before its length cap has reached cell 100.
- Printing a cell and reading it back gives its number and kind.

## Model

| member | source | states |
|---|---|---|
| MarkovChain.GetRandomNumber | markov_chain.c:9-12 | the random number is below `max_number`, and a draw already below it is returned unchanged |
| MarkovChain.GetRandomNumberIsRemainder | markov_chain.c:9-12 | the number returned is exactly `rand() % max_number` for a non-negative `rand()` value |
| MarkovChain.Find | markov_chain.c:14-32 | the lookup returns the first state in insertion order whose payload compares equal to the key, and none exactly when no state does |
| MarkovChain.Chain.GetNodeFromDatabase | markov_chain.c:14-32 | the scan over the database returns what `Find` specifies, an empty database included |
| MarkovChain.Inserted | markov_chain.c:34-64 | adding never removes or changes an existing state: the old database is a prefix of the new one |
| MarkovChain.InsertedKeepsInvariants | markov_chain.c:34-64 | an existing payload leaves the database unchanged; an absent one appends a single state holding a copy and an empty frequency list; the returned state compares equal to the key; uniqueness and well-formedness are kept |
| MarkovChain.InsertAllKeepsInvariants | markov_chain.c:34-64 | after any sequence of additions the database still has no duplicates, is well formed and keeps its earlier states |
| MarkovChain.InsertAllFinds | markov_chain.c:34-64 | after a sequence of additions, every payload added is found in the database |
| MarkovChain.InsertAllGains | markov_chain.c:34-64 | every state gained during a sequence of additions compares equal to one of the payloads added |
| MarkovChain.InsertedAddsNone | markov_chain.c:49-50 | adding a state records no transition, since a new state starts with an empty frequency list |
| MarkovChain.Chain.AddToDatabase | markov_chain.c:34-64 | the database becomes `Inserted(old database, data)`, the index returned is the existing or the appended state and compares equal to `data`, and `Valid()` is kept |
| MarkovChain.Record | markov_chain.c:69-100 | recording a transition grows the list by at most one entry and keeps the target of every existing entry |
| MarkovChain.IndexOfTarget | markov_chain.c:69-76 | the scan of a frequency list returns the first entry with the target, and none exactly when no entry has it |
| MarkovChain.Linked | markov_chain.c:66-101 | linking changes only the `from` state's list: the length and every payload stay the same, and every other state is unchanged |
| MarkovChain.RecordExisting | markov_chain.c:69-75 | a target already listed keeps the list's length; its entry's count goes up by one and every other entry stays as it was |
| MarkovChain.RecordFound | markov_chain.c:69-75 | the first entry listing the target is the one whose count is incremented |
| MarkovChain.RecordAbsent | markov_chain.c:78-99 | a new target is appended at the end of the list with count 1 |
| MarkovChain.RecordKeepsWellFormed | markov_chain.c:66-101 | recording keeps targets in range and distinct and counts at least 1, and raises the list's total by exactly one |
| MarkovChain.RecordAddsOne | markov_chain.c:66-101 | whatever the list holds, one call raises its total count by one |
| MarkovChain.RecordTimesCounts | markov_chain.c:66-101 | `n` links from A to a new target B leave a single entry for B with count `n` |
| MarkovChain.LinkedKeepsInvariants | markov_chain.c:66-101 | linking two existing states keeps the database free of duplicates and well formed |
| MarkovChain.RecordWeight | markov_chain.c:66-101 | recording a transition to a target raises that target's count by one and no other target's count |
| MarkovChain.LinkedPairCount | markov_chain.c:66-101 | linking `from` to `to` raises the count of the pair (from, to) by one and of no other pair of states |
| MarkovChain.InsertedPairCount | markov_chain.c:34-64 | adding a state changes the count of no pair of states |
| MarkovChain.LinkedAddsOne | markov_chain.c:66-101 | each link adds exactly one to the number of transitions in the whole database |
| MarkovChain.Chain.AddNodeToFrequencyList | markov_chain.c:66-101 | the database becomes `Linked(old database, first, second)` and `Valid()` is kept; the comparison by payload in the loop finds the target state exactly |
| MarkovChain.TotalAtLeastLength | markov_chain.c:166-171 | the total of a list whose counts are at least 1 is at least its length, so the draw's modulus is positive |
| MarkovChain.ChooseFrom | markov_chain.c:174-181 | the scan from an entry stops inside the list, at the entry whose running-total band contains the draw |
| MarkovChain.Choose | markov_chain.c:172-181 | a draw below the total selects the entry whose band `[sum before, sum before + count)` contains it |
| MarkovChain.ChooseIsUnique | markov_chain.c:172-181 | only one entry's band contains a given draw |
| MarkovChain.ChooseBand | markov_chain.c:172-181 | weighted-by-count sampling: entry `i` is chosen exactly for the draws in a band of width equal to its count |
| MarkovChain.ScanFrom | markov_chain.c:174-181 | the state the scan returns is one of the list's targets |
| MarkovChain.ScanFromChooses | markov_chain.c:174-181 | the subtracting scan stops exactly at the entry `ChooseFrom` selects, so the fallback after the loop is never reached |
| MarkovChain.NextState | markov_chain.c:160-184 | no successor exactly when the frequency list is empty; otherwise the successor is one of the listed targets |
| MarkovChain.NextStateBand | markov_chain.c:160-184 | the successor is entry `k`'s target exactly when `rand() % total` falls in `k`'s band of width `count` |
| MarkovChain.GetNextRandomNode | markov_chain.c:160-184 | the totalling loop and the subtracting scan compute `NextState`; the uniform fallback draw is proved unreachable |
| MarkovChain.FirstNonTerminal | markov_chain.c:128-158 | a start state found is inside the database and not terminal |
| MarkovChain.FirstNonTerminalIsFirstHit | markov_chain.c:128-158 | the start is the state selected by the first draw that lands on a non-terminal state; none is found exactly when every draw lands on a terminal state |
| MarkovChain.Chain.GetFirstRandomNode | markov_chain.c:128-158 | the rejection loop, one draw per attempt, returns `FirstNonTerminal` of the draws |
| MarkovChain.WalkFrom | markov_chain.c:196-206 | the passes from pass `i` emit at most `limit - i` states, all in the database |
| MarkovChain.Walk | markov_chain.c:186-207 | a walk starts at the start state and has at least one and at most `max(max_length, 1)` states, all in the database |
| MarkovChain.WalkFollowsDraws | markov_chain.c:196-206 | each step from state k to state k + 1 of a walk is the weighted sample that draw `k` makes from state k's list |
| MarkovChain.WalkStops | markov_chain.c:196-206 | no state except the first and the last is terminal; a walk shorter than the cap ended right after a terminal state or at a state without transitions |
| MarkovChain.WalkStep | markov_chain.c:196-206 | pass `i` either finds no successor and the walk ends, or appends the sampled state, ending the walk if it is terminal |
| MarkovChain.EmitPass | markov_chain.c:196-206 | after pass `i` the states emitted so far are a prefix of the walk, extended by exactly the sampled state |
| MarkovChain.PrintedAppend | markov_chain.c:199-204 | printing a further state appends its rendering, followed by a space unless it is terminal |
| MarkovChain.Printed | markov_chain.c:193-204 | the text starts with the first state's rendering followed by a space |
| MarkovChain.EmitFrom | markov_chain.c:193-206 | the printing loop emits exactly `Walk` from the given first state and prints exactly `Printed` of it |
| MarkovChain.Chain.GenerateRandomSequence | markov_chain.c:186-207 | with a start given, the walk from it; without one, the walk from `get_first_random_node`'s choice; the text printed is the walk's rendering; when no start is found, nothing is emitted and nothing is printed |
| MarkovChain.Chain.constructor | tweets_generator.c:106-113 | a new chain has an empty database, the given behaviours and a valid invariant; `create_chain` in snakes_and_ladders.c (lines 209-236) builds its chain the same way |
| SnakesAndLadders.TransitionInRange | snakes_and_ladders.c:23-42 | the table has `NUM_OF_TRANSITIONS` pairs; each starts below cell 100, ends on a board cell and moves |
| SnakesAndLadders.TransitionsDistinct | snakes_and_ladders.c:23-42 | no two pairs of the table start on the same cell |
| SnakesAndLadders.CellAfterStep | snakes_and_ladders.c:83-95 | applying pair `i` changes only its start cell, setting the ladder when it goes up and the snake otherwise |
| SnakesAndLadders.CellAfterAbsent | snakes_and_ladders.c:80-95 | a cell no pair starts on keeps its number and two `EMPTY` targets |
| SnakesAndLadders.CellAfterPair | snakes_and_ladders.c:83-95 | a pair's start cell ends up with that pair's single jump, whatever pairs follow |
| SnakesAndLadders.BoardCell | snakes_and_ladders.c:66-97 | cell `n` of the finished board: cell `n` with every pair of the table applied in order; its shape is stated by `BoardCellShape` |
| SnakesAndLadders.BoardCellJump | snakes_and_ladders.c:83-95 | on the finished board, a ladder start holds only its ladder and a snake start holds only its snake |
| SnakesAndLadders.BoardCellPlain | snakes_and_ladders.c:80-95 | on the finished board, a cell no pair starts on has neither ladder nor snake |
| SnakesAndLadders.BoardCellShape | snakes_and_ladders.c:47-53 | every cell has its own number and at most one of ladder and snake; a ladder goes up and a snake goes down, both to board cells; cell 100 has neither |
| SnakesAndLadders.CreateBoard | snakes_and_ladders.c:66-97 | the array holds cell `i + 1` of the finished board at index `i` |
| SnakesAndLadders.CompFunc | snakes_and_ladders.c:202-207 | the difference of the numbers: zero exactly for equal numbers, negative exactly for a smaller first number |
| SnakesAndLadders.CopyFunc | snakes_and_ladders.c:160-172 | the copy equals the original field by field |
| SnakesAndLadders.CheckIsLast | snakes_and_ladders.c:196-200 | a cell ends the game exactly when it is cell 100; `BoardBehaviours` states this on the board |
| SnakesAndLadders.BoardBehaviours | snakes_and_ladders.c:196-207 | on the board, only cell 100 is last, and two cells compare equal exactly when they are the same cell |
| SnakesAndLadders.CellBehavioursLawful | snakes_and_ladders.c:202-207 | the cell comparison and copy meet what the engine relies on |
| SnakesAndLadders.IntToStringParses | snakes_and_ladders.c:179-192 | the `%d` rendering of a number reads back as that number |
| SnakesAndLadders.PrintFunc | snakes_and_ladders.c:174-194 | the output starts with `[`, and ends with `]` exactly when the cell is cell 100 |
| SnakesAndLadders.PrintFuncReadsBack | snakes_and_ladders.c:174-194 | a printed cell reads back as its number and its kind, the kind being last cell, ladder, snake or plain in that order of precedence |
| SnakesAndLadders.DiceTargets | snakes_and_ladders.c:130-143 | a plain cell `n` moves to cells `n + 1` up to `min(n + 6, 100)`, in order, with count 1 each |
| SnakesAndLadders.JumpCellTransitions | snakes_and_ladders.c:122-127 | a ladder or snake cell's only transition is its jump, with count 1 |
| SnakesAndLadders.PlainCellTransitions | snakes_and_ladders.c:128-144 | a plain cell's transitions are its dice moves, and cell 100 has none |
| SnakesAndLadders.Transitions | snakes_and_ladders.c:118-145 | a cell has at most six transitions, each recorded once |
| SnakesAndLadders.TransitionsWellFormed | snakes_and_ladders.c:118-145 | every list is well formed, and it is empty exactly for cell 100 |
| SnakesAndLadders.JumpChoice | snakes_and_ladders.c:122-124 | `MAX(snake_to, ladder_to)` of a jump cell is its jump's target, a board cell |
| SnakesAndLadders.CreateChain | snakes_and_ladders.c:209-236 | a new chain with an empty database and the cell behaviours |
| SnakesAndLadders.FillDatabaseSnakes | snakes_and_ladders.c:104-152 | the database ends with cell `n + 1` at index `n`, holding exactly its transitions, and is valid |
| SnakesAndLadders.AddCells | snakes_and_ladders.c:113-116 | the 100 cells become 100 states, in order, each with an empty list |
| SnakesAndLadders.LookUpCell | snakes_and_ladders.c:120 | on the board database, the lookup of cell `i + 1` returns state `i` |
| SnakesAndLadders.LinkCell | snakes_and_ladders.c:118-145 | one pass gives cell `i + 1` exactly its `Transitions` and changes no other state |
| SnakesAndLadders.LinkJump | snakes_and_ladders.c:122-127 | a ladder or snake cell gets the single transition to its target |
| SnakesAndLadders.LinkTo | snakes_and_ladders.c:125-126 | linking to a target not listed yet appends it with count 1 and changes nothing else |
| SnakesAndLadders.LinkDice | snakes_and_ladders.c:128-144 | the dice loop gives a plain cell exactly its dice moves, stopping at the last cell |
| SnakesAndLadders.BoardDatabaseInvariants | snakes_and_ladders.c:104-152 | the board database has no duplicates and is well formed |
| SnakesAndLadders.BoardWalkReachesEnd | snakes_and_ladders.c:196-200 | a game walk that stops before its length cap stops on cell 100 |
| TweetsGenerator.CompFunc | tweets_generator.c:22-27 | `strcmp` gives zero exactly for equal words |
| TweetsGenerator.CopyFunc | tweets_generator.c:29-40 | the copy equals the original word |
| TweetsGenerator.CheckIsLast | tweets_generator.c:42-46 | a word ends a tweet exactly when it is some text followed by `.` |
| TweetsGenerator.PrintFunc | tweets_generator.c:16-20 | a word is printed as it is, with nothing added around it |
| TweetsGenerator.PrintedTweetEndsWithStop | markov_chain.c:199-204 | a tweet of two words or more that ends at a terminal word prints a full stop as its last character: no space follows the terminal word, and `print_func` (tweets_generator.c lines 16-20) prints the word unchanged |
| TweetsGenerator.WordBehavioursLawful | tweets_generator.c:22-27 | the word comparison and copy meet what the engine relies on |
| TweetsGenerator.CreateChain | tweets_generator.c:88-115 | a new chain with an empty database and the word behaviours |
| TweetsGenerator.WordLength | tweets_generator.c:7 | the run length stops exactly at the first character of `" \n\t\r"` |
| TweetsGenerator.Tokens | tweets_generator.c:60-81 | the words `strtok` returns, in order, for the delimiters `" \n\t\r"`; its properties are stated by the three lemmas below |
| TweetsGenerator.TokensAreWords | tweets_generator.c:60-81 | every token is non-empty and holds no delimiter |
| TweetsGenerator.TokensKeepLetters | tweets_generator.c:60-81 | the tokens, concatenated, are the line's non-delimiter characters in order |
| TweetsGenerator.TokensOfWord | tweets_generator.c:60-81 | a word followed by a delimiter, or by nothing, is split off whole |
| TweetsGenerator.TokensOfJoin | tweets_generator.c:60-81 | words joined by single spaces split back into exactly those words |
| TweetsGenerator.LineWordsAre | tweets_generator.c:60-75 | word `k` of a line is token `k`, and only the first word has no predecessor |
| TweetsGenerator.WordsRead | tweets_generator.c:70-79 | the words read are a prefix of the corpus: exactly `words_to_read` of them when the count reaches it, the whole corpus otherwise |
| TweetsGenerator.ReadWord | tweets_generator.c:64-75 | reading one word adds at most one state, and the word's state is in the database afterwards |
| TweetsGenerator.ReadWords | tweets_generator.c:58-83 | reading words adds at most one state per word |
| TweetsGenerator.ReadWordsRecords | tweets_generator.c:64-75 | reading records one transition per word that continues a line and none across a line break |
| TweetsGenerator.LineContinuations | tweets_generator.c:61-75 | a line of `n >= 1` words links `n - 1` times |
| TweetsGenerator.CorpusContinuations | tweets_generator.c:58-83 | the corpus holds one continuation per consecutive pair inside a line |
| TweetsGenerator.FillDatabaseTransitions | tweets_generator.c:54-86 | a full read records exactly one transition per consecutive pair of words on a line |
| TweetsGenerator.FollowsPositive | tweets_generator.c:61-75 | word v follows word u at least once exactly when some word v continues a line right after a word u |
| TweetsGenerator.ReadWordsKeeps | tweets_generator.c:58-83 | reading keeps the database free of duplicates and well formed, and keeps the payload of every earlier state |
| TweetsGenerator.ReadWordPairCount | tweets_generator.c:64-75 | one word adds a transition only to the pair (previous word, this word), and only when it continues a line |
| TweetsGenerator.ReadWordsPairs | tweets_generator.c:58-83 | the count of a pair of states rises by exactly the number of times the second state's word follows the first state's word on a line |
| TweetsGenerator.ReadWordsLinks | tweets_generator.c:58-83 | read into an empty database, state p lists state q exactly when q's word continues a line right after p's word |
| TweetsGenerator.FillDatabasePairs | tweets_generator.c:54-86 | on an empty chain, the count from word u to word v is the number of times v follows u on a line of the words read |
| TweetsGenerator.ReadWordPayloads | tweets_generator.c:64 | reading a word keeps the database's states and adds the word to the set of payloads |
| TweetsGenerator.ReadWordsPayloads | tweets_generator.c:58-83 | after reading, the payloads are exactly the earlier ones plus the words read |
| TweetsGenerator.ReadWordsAppend | tweets_generator.c:58-83 | reading two runs of words across a line break is reading the first and then the second afresh |
| TweetsGenerator.ReadWordsAtLineStart | tweets_generator.c:61 | a line's first word is not linked from the word before it |
| TweetsGenerator.LineRead | tweets_generator.c:58-83 | after one line, the reading either stopped inside it at `WordsRead`, or the corpus read so far grew by the whole line |
| TweetsGenerator.StoppedInLine | tweets_generator.c:76-80 | stopping at word `k` of line `i` means the corpus was read up to that word |
| TweetsGenerator.AllLinesRead | tweets_generator.c:84-85 | when the loop never stops early, the whole corpus was read |
| TweetsGenerator.AddWord | tweets_generator.c:64-75 | one token is added, and linked from the previous word of its line when there is one |
| TweetsGenerator.ReadToken | tweets_generator.c:62-81 | one pass of the token loop reads word `j` and leaves exactly the rest of the line's words to read |
| TweetsGenerator.TokenLoop | tweets_generator.c:62-82 | the token loop reads the line's words until the count reaches `words_to_read`, and reports whether it stopped |
| TweetsGenerator.ReadTokens | tweets_generator.c:60-82 | one line's tokens are read from `words_count` on, giving the database that reading its first `count - words_count` words gives |
| TweetsGenerator.ReadLine | tweets_generator.c:60-82 | the same as `ReadTokens`, on the line's own `strtok` tokens |
| TweetsGenerator.ReadNextLine | tweets_generator.c:58-83 | one pass of the line loop either stops with `WordsRead` read, or extends the corpus read by one line |
| TweetsGenerator.FillDatabase | tweets_generator.c:54-86 | the database becomes the one reading `WordsRead(lines, words_to_read)` in order gives, and stays valid |

## Left out

- Allocation failures are not modelled: every `malloc` and `realloc` is taken to succeed, so the `ALLOCATION_ERROR_MASSAGE` paths and `EXIT_FAILURE` returns are absent. This covers `add_to_database`, `add_node_to_frequency_list`, `create_board`, both `copy_func`s, both `create_chain`s and the failure check inside `fill_database`.
- Memory release is not modelled, as it has no counterpart on values: `free_markov_chain`, `free_func` and `handle_error_snakes`.
- Both `main` functions are left out. They do argument parsing, `srand` with the seed, `fopen`, `fclose`, and print the `Tweet %d:` and `Random Walk %d:` headers. `MAX_TWEET` and `MAX_GENERATION_LENGTH` reach the model only as the `maxLength` argument.
- Reading the file is left out. The corpus is the sequence of lines `fgets` would return. The split of lines longer than `MAX_LINE - 1` characters is not modelled.
- `strtok` is modelled as the pure function `Tokens`; its hidden static cursor is not.
- `rand()` is replaced by explicit draws, one per call.
- The cursor walk in `get_first_random_node` that steps `rand_num` links down the list (markov_chain.c lines 141-145) is modelled as indexing the database at the draw; the loops of `free_markov_chain` are left out with memory release.
- MarkovChain.Chain.GetFirstRandomNode: the rejection loop gets a finite sequence of draws. It returns `None` when all of them land on terminal states, where the source keeps drawing forever.
- MarkovChain.WalkFrom: a non-terminal state with no transitions ends the walk. There, `get_next_random_node` returns `NULL` and `generate_random_sequence` dereferences it, which is undefined behaviour in C. This cannot happen on the board. In the tweets driver it happens when a word that ends no tweet is never followed by another word on its line.
- `int` overflow is not modelled. Counts, totals and word counts are unbounded integers, where the source uses `int` and `unsigned`.
- Printing is modelled as the string `Printed` builds, not as writes to standard output.
- TweetsGenerator.CompFunc: `strcmp` is modelled by the sign of the first difference (`-1`, `0` or `1`). The C standard fixes only that sign, not the magnitude. The engine tests only for zero.
- TweetsGenerator.CheckIsLast: for the empty word the source reads `word[-1]`. The model answers false instead. Tokens are never empty, so the case is not reached.
- The engine assumes three laws of a driver's `comp` and `copy`: `comp` is reflexive and symmetric, and a copy compares like its original. Both drivers are proved to meet them (`CellBehavioursLawful`, `WordBehavioursLawful`). Transitivity is not needed.
- The generic `void *` payload is the type parameter `T`. Pointer identity of nodes is the index in the database.
