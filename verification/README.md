# R-way trie

A Dafny model of the R-way trie in `Program.cs`. The trie stores strings whose
characters all have codes 0..125. Each `RWayTrieNode` owns an array of 126
child slots, indexed by character code, and an end-of-word flag. `RWayTrie`
holds the root node and offers these operations:

- `Insert`: does nothing when the word is already stored, otherwise calls
  `InsertTrie`.
- `InsertTrie`: walks the word from the root, creates each missing node and
  marks the last node as a word end.
- `Search` and `SearchTrie`: walk the word and fail at the first empty slot.
- `PrefixMatch`: walks the prefix while copying it into a `StringBuilder`. It
  stops at the first empty slot; otherwise `FindWordsWithPrefix` lists the
  subtree below the prefix.
- `FindWordsWithPrefix`: a recursive pre-order walk that appends the slot's
  character to the shared builder before each child and removes it afterwards.

The model keeps the source's imperative form. Nodes are classes. The child
slots are an `array<RWayTrieNode?>` of length `R = 126`. The operations are
methods that update the heap. The `StringBuilder` is the small class
`CharBuilder`, whose `chars` field the recursion appends to and shortens.

A ghost view on the trie object states the contracts:

- `Paths` maps every string spelled from the root to the node it reaches.
- `Words` is the set of stored words.
- `Owner` records which path owns each child array, so no node or array is
  shared.
- `Repr` is the footprint.

`Valid()` ties this view to the heap:

- every prefix of a path is a path;
- slot `i` of the node at `s` holds the node at `s + [i]`, or null when that
  is not a path;
- every child array has length 126;
- a word is stored exactly when its node carries the end-of-word flag.

The printed output of `PrefixMatch` becomes its result: the sequence of words
that `FindWordsWithPrefix` would print, in printing order. The order is the
ordinal lexicographic order `Ordering.Before`, in which a proper prefix comes
first. `Ordering.AscendingUnique` shows that "exactly these words, strictly
ascending" fixes the listing completely. So the contract of `PrefixMatch`
determines what is printed, line for line.

`TrieScenario` is a client. It builds a trie from "cat", "car", "cart", "dog"
and "cat" again, and derives from the contracts alone the answers to several
prefix queries and searches. `TrieScenario.EmptyWord` does the same for the
empty word.

## Model

| member | source | states |
|---|---|---|
| RWayTrieCode.RWayTrieNode.constructor | Program.cs:15-19 | a new node has a fresh child array of exactly 126 slots, all empty, and is not the end of a word |
| RWayTrieCode.RWayTrie.constructor | Program.cs:30-33 | a new trie is valid, stores no word and consists of its root alone, so every slot of the root is empty |
| RWayTrieCode.RWayTrie.Insert | Program.cs:38-46 | afterwards the stored words are exactly the old ones plus `word`; every node already on a path stays where it was, and every new path is a prefix of `word` and ends at a newly allocated node; when `word` was already stored nothing in the trie changes (idempotence) |
| RWayTrieCode.RWayTrie.InsertTrie | Program.cs:51-71 | afterwards the stored words are exactly the old ones plus `word`; existing paths keep their nodes, the node of every new path is newly allocated, and new paths lie only on the path of `word` (nodes are created only as needed); the trie stays valid, including 126-slot child arrays |
| RWayTrieCode.RWayTrie.AddChild | Program.cs:63-66 | filling an empty slot with a new node adds exactly one path, `k + [c]`, leaves the stored words unchanged and keeps the trie valid |
| RWayTrieCode.RWayTrie.Search | Program.cs:76-79 | returns true exactly when `word` is stored, and changes nothing |
| RWayTrieCode.RWayTrie.SearchTrie | Program.cs:84-107 | returns true exactly when `word` is stored, so false at an empty slot and false for a strict prefix that was never inserted |
| RWayTrieCode.RWayTrie.PrefixMatch | Program.cs:111-133 | the result contains a string exactly when it is a stored word starting with `prefix`; it is strictly ascending, so each word appears once, in walk order; it is empty when a slot on the prefix is empty |
| RWayTrieCode.RWayTrie.FindWordsWithPrefix | Program.cs:137-156 | lists exactly the stored words that extend the builder's contents, strictly ascending, and leaves the builder as it found it |
| RWayTrieCode.CharBuilder.constructor | Program.cs:114 | a new builder is empty |
| RWayTrieCode.CharBuilder.Append | Program.cs:151 | appends one character to the builder's contents |
| RWayTrieCode.CharBuilder.Shorten | Program.cs:153 | removes the last character of the builder's contents |
| RWayTrieCode.RWayTrie.SlotOf | Program.cs:98-103 | slot `c` of the node at path `s` holds the node at `s + [c]`, or null when that is not a path |
| RWayTrieCode.RWayTrie.NotPathNoWords | Program.cs:98-100 | a string that no path spells is a prefix of no stored word, so returning false or stopping there loses nothing |
| RWayTrieCode.RWayTrie.EmptySlotNoWords | Program.cs:147-155 | no stored word continues the current path through an empty slot, so skipping that slot loses no word |
| RWayTrieCode.RWayTrie.SubtreeShrinks | Program.cs:149-152 | the paths below a child are a proper subset of those below its parent, so the recursion terminates |
| RWayTrieCode.PrefixClosedAdd | Program.cs:63-66 | hanging a node under an existing path keeps every prefix of a path a path |
| RWayTrieCode.ChildAfter | Program.cs:142-155 | the words listed before visiting slot `c` come before every word below slot `c` |
| RWayTrieCode.ExtendsChild | Program.cs:149-152 | a word lies below slot `c` of the node at `key` exactly when it extends `key` with `c` next |
| Ordering.PrefixBefore | Program.cs:142-145 | the word at a node comes before every word below it |
| Ordering.BranchBefore | Program.cs:147-152 | words below a smaller slot come before words below a larger slot of the same node |
| Ordering.AppendAscending | Program.cs:147-155 | appending a later ascending listing to an ascending listing keeps it ascending |
| Ordering.AscendingDistinct | Program.cs:142-155 | an ascending listing prints no word twice |
| Ordering.AscendingUnique | Program.cs:111-133 | two ascending listings of the same words are equal, so the contract fixes the printed listing |
| Ordering.BeforeTransitive | Program.cs:147-155 | the listing order is transitive |
| Ordering.BeforeIrreflexive | Program.cs:147-155 | no word comes before itself |
| TrieScenario.InsertAll | Program.cs:38-46 | inserting a list of words stores exactly the old words plus those in the list, and every new path is a prefix of a listed word |
| TrieScenario.Build | Program.cs:38-46 | inserting "cat", "car", "cart", "dog" and "cat" again stores exactly those four words, and every path is a prefix of one of them |
| TrieScenario.MatchCa | Program.cs:111-133 | prefix "ca" lists exactly "car", "cart", "cat", in that order |
| TrieScenario.OnlyListedPaths | Program.cs:63-66 | after building from the root, a path that is a prefix of an inserted word is a prefix of "cart", "cat" or "dog" |
| TrieScenario.RootSlotZEmpty | Program.cs:123-126 | in a trie whose paths are all prefixes of the stored words, the root's slot for 'z' is empty |
| TrieScenario.MatchDoAndZ | Program.cs:111-133 | prefix "do" lists only "dog"; prefix "z" lists nothing, and the root's slot for 'z', where the walk stops, is empty |
| TrieScenario.MatchEmpty | Program.cs:111-133 | the empty prefix lists every stored word in order |
| TrieScenario.SearchCaAndCat | Program.cs:84-107 | "ca", a strict prefix of stored words, is not found; "cat" is found |
| TrieScenario.EmptyWord | Program.cs:51-71 | the empty word is missing from a new trie, is found once inserted, and is listed for the empty prefix |

## Left out

- `Program.Main` and its demonstration calls are left out; they are a
  console program around the trie.
- The console messages are left out: "already exists in trie", "No words with
  the given prefix." and the "not allowed" notice. The words that
  `FindWordsWithPrefix` prints are the result of `PrefixMatch`.
- Characters whose code is 126 or more are not modelled. Every operation
  requires `InAlphabet` of its argument. In C# such a character, once the
  walk reaches it, indexes past the 126-slot array and throws
  `IndexOutOfRangeException`. The model does not include that exception.
- Search, SearchTrie, PrefixMatch: the `InAlphabet` requirement also excludes
  inputs that the source answers normally. The walk stops at the first empty
  slot (`Program.cs:98-100`, `123-126`) before it reads any later character.
  So `Search("zé")` on a trie without 'z' returns false, and the model does
  not cover that call.
- Insert, InsertTrie: with a character of code 126 or more, the source first
  creates the nodes for the characters before it (`Program.cs:63-66`) and
  then throws. The model does not cover this partial change.
- The `index == -1` branches (`Program.cs:58-62`, `92-96`, `118-122`) are not
  modelled. Their messages at `Program.cs:60`, `94` and `120` say that the
  character "will be skipped", but `(int)` of a `char` is never -1. So these
  branches are dead code: nothing is skipped or rejected, and the model
  follows the code.
- The `node == null` guard of `FindWordsWithPrefix` (`Program.cs:139-140`) is
  not modelled. No caller passes null: `PrefixMatch` passes a node it reached,
  and the loop recurses only on non-null slots. So the model types `node` as
  non-null.
- The model does not capture C#'s UTF-16 `char` versus Dafny's Unicode
  `char`. They agree on every code below 126, the only codes the model
  admits.
- `StringBuilder` is modelled by `CharBuilder`, which is reduced to its
  contents. `currentWord.Length--` is `Shorten`.
- `Children` is a `const` field in the model, because the source never
  replaces a node's array after construction. Only its slots change.
- Lines 63-66 of `InsertTrie` are factored into `AddChild`, so that the proof
  about one new node stays separate from the loop. The behaviour is the same.
