# Markov chains: engine, snakes and ladders, tweets

A Dafny model of the Markov-chain engine of `markov_chain.c` / `markov_chain.h`
and of the training logic of its two consumers, `snakes_and_ladders.c` and
`tweets_generator.c`.

The engine keeps a *database*: a registry of state nodes in insertion order,
without duplicates. Each node holds a copy of its state, a transition
(frequency) list and `frequency_count`. Each transition list entry points at a
registry node and counts how often that node was seen right after the owner.

- `add_to_database` registers a state.
- `add_node_to_frequency_list` records an observed transition.
- `get_next_random_node` samples a successor by prefix sums of the weights.
- `get_first_random_node` rejection-samples a non-terminal start state.
- `generate_random_sequence` walks the chain until a terminal state, a dead end,
  or `max_length`.

The board consumer fills the database with the 100 cells of a snakes-and-ladders
board. The tweets consumer trains it on a stream of words.

Modules:

| file | module | contents |
|---|---|---|
| `markov_types.dfy` | `MarkovTypes` | `Node`, `Edge`, `Status`, `Option`, the registry invariants (`WellFormed`, `Closed`, `Observed`) |
| `markov_spec.dfy` | `MarkovSpec` | registry and transition-list operations as functions (`Lookup`, `Register`, `RecordTransition`, `AddTransition`) and their lemmas |
| `markov_walk.dfy` | `MarkovWalk` | weighted selection (`Select`, `NextState`), start selection (`FirstState`), generation (`Walk`) and their lemmas |
| `markov_chain.dfy` | `MarkovChain` | class `Chain`: the `database` field and the engine methods with their loops, each proved equal to its function; class `Handle` for `free_markov_chain` |
| `tweets_generator.dfy` | `TweetsGenerator` | string capabilities, the training loop, what training learns, validation, `fill_database`, the "a b c." scenario |
| `snakes_and_ladders.dfy` | `SnakesAndLadders` | the transitions table, `create_board` on an array, `fill_database_snakes`, the cell capabilities, what the built database holds |

Representation choices:

- **Node pointers.** A node pointer is its index in the registry (`seq<Node<T>>`). A NULL pointer is `None`.
- **State comparison.** `comp_func(a, b) == 0` is Dafny equality on the state type `T`.
- **Randomness.** It is passed in explicitly:
  - one raw `rand()` value for a single step;
  - a finite sequence of raw values for start selection;
  - a stream `rand: nat -> nat` for generation, where loop step `k` draws `rand(k)`.
- **Allocation outcomes.** Each is an explicit boolean input:
  - `malloc` of a node, with the state copy and the list append;
  - the new transition entry;
  - `strdup`;
  - each board cell;
  - each board edge.

Where the header and the code disagree, the model follows the code:

- **NULL `first_node`.** `markov_chain.h:91-92` says a NULL `first_node` makes `generate_random_sequence` pick a random start. The code returns without printing (`markov_chain.c:241`). `Walk` is empty for `None`.

## Model

| member | source | states |
|---|---|---|
| MarkovSpec.RandomNumber | markov_chain.c:8 | the draw lies in [0, max_number), and is 0 for an empty range |
| MarkovSpec.Lookup | markov_chain.c:56-70 | the result is the first node, in registry order, holding the state; None exactly when no node holds it |
| MarkovSpec.LookupStored | markov_chain.h:116-125 | in a deduplicated registry the lookup of a stored state finds that state's own node |
| MarkovSpec.CreateNode | markov_chain.c:15-31 | a node exists iff allocation and copy succeed; it holds the state, no transitions and frequency_count 0 |
| MarkovSpec.Register | markov_chain.c:78-95 | a present state returns its node and leaves the registry unchanged; an absent one is appended as the new last node and returned; on allocation failure NULL is returned and nothing changes |
| MarkovSpec.RegisterWellFormed | markov_chain.h:127-134 | registering keeps the registry free of duplicate states and every node well formed |
| MarkovSpec.RegisterKeepsPrefix | markov_chain.c:84-94 | the registry only grows, by at most one node at its end; the stored states gain the new state iff it was absent and allocation succeeded |
| MarkovSpec.EdgeIndex | markov_chain.c:108-121 | the first transition entry pointing at the target; None iff there is none |
| MarkovSpec.RecordTransition | markov_chain.c:104-136 | an existing entry keeps the list length and frequency_count; a new target appends (target, 1) at the tail and adds 1 to frequency_count; failure iff the target is new and allocation fails |
| MarkovSpec.RecordTransitionWeight | markov_chain.c:112-134 | a recorded transition adds exactly 1 to the total weight of the list |
| MarkovSpec.RecordTransitionCounts | markov_chain.h:45-48 | recording a transition to t adds one observation of t and leaves every other target's frequency as it was |
| MarkovSpec.RecordTransitionWellFormed | markov_chain.c:124-134 | frequency_count stays equal to the list length, every frequency stays positive, no target appears twice |
| MarkovSpec.AddTransition | markov_chain.h:104-114 | failure (1) only on allocation error for a new target; on success the states and every other node are unchanged |
| MarkovSpec.AddTransitionWellFormed | markov_chain.c:104-136 | recording a transition between registry nodes keeps the registry invariant |
| MarkovWalk.Select | markov_chain.c:220-230 | a selected target is a target of the list |
| MarkovWalk.SelectInterval | markov_chain.c:220-228 | edge i is chosen iff its running sum before it is <= r and its running sum including it is > r |
| MarkovWalk.SelectFound | markov_chain.c:223-230 | selection finds an edge iff r is below the total weight |
| MarkovWalk.SelectionCount | markov_chain.c:207-231 | of the draws in [0, total), exactly frequency(i) select edge i |
| MarkovWalk.NextState | markov_chain.c:207-231 | the result is a target of the node's list; a node with frequency_count 0 gives NULL |
| MarkovWalk.NextStateNoneIffNoEdges | markov_chain.c:209-230 | for a node whose count equals its list length and whose frequencies are positive, the result is NULL iff it has no transitions |
| MarkovWalk.FirstState | markov_chain.c:178-199 | a returned node is in the registry, its state is not terminal, and it is the first draw whose state is not terminal; NULL iff the registry is empty or every draw hits a terminal state |
| MarkovWalk.Walk | markov_chain.c:238-257 | every printed index is a registry node |
| MarkovWalk.WalkLength | markov_chain.c:241-251 | nothing is printed iff first_node is NULL or max_length < 2; otherwise the output starts with first_node and has 1 to max_length elements |
| MarkovWalk.WalkFollowsEdges | markov_chain.c:246-251 | each consecutive pair of the output is a recorded transition |
| MarkovWalk.WalkStops | markov_chain.c:246-256 | no state before the last is terminal (after the first), and the walk ends at max_length, at a node without transitions, or at a terminal state |
| MarkovChain.Chain.GetNodeFromDatabase | markov_chain.c:56-70 | the linear scan returns exactly Lookup |
| MarkovChain.Chain.AddToDatabase | markov_chain.c:78-95 | the node returned and the new database are exactly Register; the registry invariant is kept |
| MarkovChain.Chain.AddNodeToFrequencyList | markov_chain.c:104-136 | NULL ends fail and change nothing; otherwise the status and new database are exactly AddTransition; the registry invariant is kept |
| MarkovChain.Chain.GetNextRandomNode | markov_chain.c:207-231 | the two loops (sum, then running sum) return exactly NextState |
| MarkovChain.Chain.GetFirstRandomNode | markov_chain.c:178-199 | the redraw loop returns exactly FirstState of the draws |
| MarkovChain.Chain.GenerateRandomSequence | markov_chain.c:238-259 | the printed indexes are exactly Walk |
| MarkovChain.Handle.FreeMarkovChain | markov_chain.c:144-171 | a NULL handle is left alone; with free_data the handle becomes NULL; without it nothing changes |
| MarkovChain.Handle.FreeTwice | markov_chain.c:146-170 | two frees in a row are safe and leave the handle NULL |
| TweetsGenerator.Strdup | tweets_generator.c:18-27 | the copy exists iff malloc succeeds and equals the original |
| TweetsGenerator.CompareStrings | tweets_generator.c:32-33 | the comparison is zero iff the strings are equal |
| TweetsGenerator.CompareStringsAntisymmetric | tweets_generator.c:32-33 | swapping the arguments negates the result |
| TweetsGenerator.IsLastString | tweets_generator.c:35-39 | a non-empty word is terminal iff it is some string followed by a period |
| TweetsGenerator.Step | tweets_generator.c:131-147 | prev_node stays a registry node; success needs the strdup and never shrinks the registry |
| TweetsGenerator.WordsToProcess | tweets_generator.c:122-129 | with words_to_read = -1 every token is processed; a words_to_read between 0 and the number of tokens processes exactly that many; a larger one processes all; any other negative value none |
| TweetsGenerator.ReadAndProcessFile | tweets_generator.c:115-151 | the loop's status and database are exactly Train on the first WordsToProcess tokens, starting with no prev_node |
| TweetsGenerator.ProcessToken | tweets_generator.c:131-145 | one iteration of the reading loop leaves exactly the status, database and prev_node of Step; a failure keeps prev_node |
| TweetsGenerator.StepFails | tweets_generator.c:131-140 | a token fails exactly when strdup fails, when add_to_database must create a node and cannot, or when add_node_to_frequency_list must append an edge from prev_node and cannot; a failure keeps prev_node |
| TweetsGenerator.TrainStopsAtFailure | tweets_generator.c:131-140 | training stops at the first failing token with its EXIT_FAILURE, registry and prev_node |
| TweetsGenerator.TrainSucceeds | tweets_generator.c:131-140 | a run in which every allocation succeeds returns EXIT_SUCCESS |
| TweetsGenerator.RegisterKeepsCounts | tweets_generator.c:133-135 | registering a token changes no recorded frequency |
| TweetsGenerator.RegisterFinds | tweets_generator.c:133-136 | after registration the token's node is found by lookup, and earlier lookups are unchanged |
| TweetsGenerator.AddTransitionCounts | tweets_generator.c:137-141 | recording prev -> current adds one to the frequency of exactly that pair of words |
| TweetsGenerator.StepRegistry | tweets_generator.c:131-136 | after a step the registry is well formed and holds the distinct tokens so far, in order of first occurrence |
| TweetsGenerator.StepPending | tweets_generator.c:142-145 | after a step prev_node is the node of the token, or NULL when the token ends a sentence |
| TweetsGenerator.StepCountFresh | tweets_generator.c:137-145 | a token with no prev_node records no transition |
| TweetsGenerator.StepCountLinked | tweets_generator.c:137-141 | a token after a non-terminal token adds one transition from that token to it |
| TweetsGenerator.StepLearns | tweets_generator.c:131-147 | one successful step extends what was learnt (registry, frequencies, prev_node) by one token |
| TweetsGenerator.TrainLearns | tweets_generator.c:122-148 | a successful run extends what was learnt to the whole token stream |
| TweetsGenerator.TrainFromEmpty | tweets_generator.c:115-151 | after a successful run from an empty database, the registry is the distinct tokens in first-occurrence order, and the frequency of x -> y is the number of places where y directly follows a non-terminal x |
| TweetsGenerator.ValidateAndFinalizeDatabase | tweets_generator.c:153-178 | success iff the database has at least 2 nodes and some terminal node directly follows a non-terminal one in registry order (a run of length >= 2) |
| TweetsGenerator.FillDatabase | tweets_generator.c:180-206 | a failed list allocation fails; otherwise the database is what training leaves, and success iff training and validation both succeed |
| TweetsGenerator.SentenceTraining | tweets_generator.c:115-151 | training on "a b c." gives 3 nodes, a -> b and b -> c. each with frequency 1, no a -> c., and no prev_node |
| TweetsGenerator.SentenceLookups | markov_chain.c:56-70 | in the learnt registry, a -> b and b -> c. are counted once and a -> c. not at all |
| TweetsGenerator.SentenceGeneration | markov_chain.c:238-257 | for any rand(), a walk from "a" with max_length 5 prints a b c. and stops at c.; the database validates |
| SnakesAndLadders.TableIsWellFormed | snakes_and_ladders.c:21-40 | every pair joins two different board cells and no two pairs start on the same cell |
| SnakesAndLadders.TableInRange | snakes_and_ladders.c:21-40 | every pair joins two different cells of 1..100 |
| SnakesAndLadders.TableFromsDistinct | snakes_and_ladders.c:21-40 | no two pairs start on the same cell |
| SnakesAndLadders.BoardAfterStep | snakes_and_ladders.c:82-94 | applying pair t sets one field of cell `from` (ladder_to when from < to, snake_to otherwise) and nothing else |
| SnakesAndLadders.CreateBoard | snakes_and_ladders.c:66-96 | success iff all 100 allocations succeed, and then the array is exactly the board |
| SnakesAndLadders.ApplyTransitions | snakes_and_ladders.c:82-94 | applying every pair of the table to the numbered cells gives exactly the board |
| SnakesAndLadders.BoardFollowsTable | snakes_and_ladders.c:82-94 | for each pair (from, to), cell from has ladder_to = to when from < to and snake_to = to otherwise, the other field EMPTY |
| SnakesAndLadders.BoardPlainCells | snakes_and_ladders.c:79 | a cell that starts no pair holds number i + 1 with ladder_to = snake_to = EMPTY |
| SnakesAndLadders.BoardShortcuts | snakes_and_ladders.c:82-94 | no cell has both a ladder and a snake; ladders lead up and snakes down, both within the board |
| SnakesAndLadders.Cell13IsSnake | snakes_and_ladders.c:21 | cell 13 has the snake to 4 and no ladder |
| SnakesAndLadders.CopyCell | snakes_and_ladders.c:156-162 | the copy exists iff malloc succeeds and has all three fields of the original |
| SnakesAndLadders.CompareCells | snakes_and_ladders.c:164-169 | zero iff the numbers are equal, negative iff the first number is smaller |
| SnakesAndLadders.CompareCellsOnBoard | snakes_and_ladders.c:164-169 | on the board, compare_cells is zero iff the cells are the same cell, and it is antisymmetric |
| SnakesAndLadders.IsLastCell | snakes_and_ladders.c:186-190 | of the cells of the board, a cell is terminal iff it is the last one (number 100) |
| SnakesAndLadders.IsLastCellOnBoard | snakes_and_ladders.c:186-190 | of the board cells exactly cell 100 is terminal |
| SnakesAndLadders.ShortcutOnBoard | snakes_and_ladders.c:121-124 | MAX(snake_to, ladder_to) of a shortcut cell is another cell of the board |
| SnakesAndLadders.RegisterCell | snakes_and_ladders.c:112-115 | registering cell n + 1 after cells 1..n appends it at index n |
| SnakesAndLadders.FilledLookup | snakes_and_ladders.c:119-125 | during the second loop every cell is found at its own index |
| SnakesAndLadders.ShortcutStep | snakes_and_ladders.c:121-127 | adding the shortcut edge, or failing to, gives the cell exactly its final edges |
| SnakesAndLadders.DiceStep | snakes_and_ladders.c:133-144 | throw j adds the edge to the cell j further on, or fails when it cannot be allocated |
| SnakesAndLadders.AddShortcut | snakes_and_ladders.c:121-127 | the cell gets its shortcut edge, and a failure is ignored |
| SnakesAndLadders.AddThrow | snakes_and_ladders.c:133-144 | success iff the edge is allocated, and then the cell has one more dice edge |
| SnakesAndLadders.AddDiceEdges | snakes_and_ladders.c:128-145 | success iff every dice edge of the cell is allocated; the loop stops at cell 100 |
| SnakesAndLadders.AddCellEdges | snakes_and_ladders.c:117-145 | one iteration of the second loop: the shortcut edge or the dice edges of cell i |
| SnakesAndLadders.FillDatabaseSnakes | snakes_and_ladders.c:103-154 | a board allocation failure fails with an empty database; otherwise success iff every dice edge is allocated, and then the database is SnakesDatabase |
| SnakesAndLadders.SnakesDatabaseWellFormed | snakes_and_ladders.c:103-154 | the built database has distinct cells, well-formed transition lists, and edges inside the registry |
| SnakesAndLadders.ShortcutEdges | snakes_and_ladders.c:112-127 | index i holds cell i + 1; a shortcut cell has exactly one edge, of frequency 1, to cell MAX(snake_to, ladder_to) when it could be allocated |
| SnakesAndLadders.Cell13Edges | snakes_and_ladders.c:121-127 | cell 13 has the single edge to cell 4 |
| SnakesAndLadders.DiceEdgesOfCell | snakes_and_ladders.c:128-145 | a cell n without a shortcut has, in order, one edge of frequency 1 to each of n + 1 .. min(n + 6, 100) |
| SnakesAndLadders.LastCellHasNoEdges | snakes_and_ladders.c:128-135 | cell 100 is terminal and has no edges |
| SnakesAndLadders.OtherCellsMove | snakes_and_ladders.c:117-145 | with all shortcut edges recorded, every cell but the last has a transition |
| SnakesAndLadders.GameEnds | snakes_and_ladders.c:247-253 | a walk from cell 1 follows recorded edges, passes no finishing cell before its end, and ends on cell 100 unless it reached max_length |

## Left out

- Command-line handling, file I/O and printing are not modelled. This covers `main` and `preprocessed`/`preprocessed_snake` in both consumers, `print_func`, `print_cell` and `print_string`. Generation returns the printed registry indexes instead of printing them.
- `fgets` line splitting and `strtok` are not modelled. Training takes a flattened token stream. `prev_node` persists across lines, so line boundaries do not change what is learnt.
- The global `rand`/`srand` state is replaced by explicit raw draws. Only the counting lemma (`SelectionCount`) is stated, not a probability distribution.
- Memory management is not modelled: `malloc`/`free` ownership, releasing the copied state on append failure, and the cell leak when a dice edge fails. Each allocation site is a boolean outcome.
- MarkovSpec.Register: a single `allocOk` covers `malloc` of the node, the state copy and the append to the list, which fail alike.
- `create_markov_node_frequency` is not modelled because nothing calls it.
- Guards for NULL chains, NULL data and a missing `comp_func` are not modelled. These values cannot occur in the model.
- `linked_list.h` is not part of this model. Its `add` is taken to append at the tail.
- MarkovChain.Chain.AddNodeToFrequencyList: the engine looks for an existing entry by passing the two `MarkovNode` pointers, not their states, to `comp_func` (markov_chain.c:114). The model compares entries by node identity, the same registry index, which is the evidently intended test. It is not always what the code computes: `compare_strings` then runs `strcmp` over the bytes of the node structs, and `compare_cells` reads a cell number from the start of each struct. Either can call two different nodes equal.
- `comp_func` is Dafny equality. `compare_cells` compares only cell numbers; `CompareCellsOnBoard` shows that this agrees with equality on the board.
- MarkovChain.Chain.GetFirstRandomNode: the redraw loop of the source is unbounded. The model consumes a finite sequence of draws and returns NULL when they run out.
- Integer overflow of `frequency`, `frequency_count` and the running sums is not modelled; integers are unbounded.
- SnakesAndLadders.FillDatabaseSnakes:
  - Its `add_to_database` calls are taken to succeed. The source ignores their result and would dereference NULL later.
  - It requires an empty database, as after chain initialisation.
  - The partial database left by a failure is not stated.
- TweetsGenerator.FillDatabase, TweetsGenerator.ReadAndProcessFile: on failure the database is the one `Train` leaves (the registry as it stood at the failed token). Its contents are not characterised further.
- TweetsGenerator.CompareStrings: it returns the difference of the first differing characters as Dafny `char` codes. C's `strcmp` promises only the sign, computed on `unsigned char`.
- TweetsGenerator.IsLastString: words are non-empty. `is_last_string` on an empty string would read before the string; `strtok` never yields one.
- MarkovChain.Handle.FreeMarkovChain: releasing the nodes, edges and states is represented only by the handle becoming NULL.
