/** A client of the trie: it stores the words "cat", "car", "cart" and "dog"
    and checks the answers that the trie's contracts force for a few
    queries. */
module TrieScenario {
  import opened Ordering
  import opened RWayTrieCode

  ghost const Stored: set<string> := {"cat", "car", "cart", "dog"}

  /** Inserts the words of `words` in order. */
  method InsertAll(trie: RWayTrie, words: seq<string>)
    requires trie.Valid()
    requires forall j :: 0 <= j < |words| ==> InAlphabet(words[j])
    modifies trie.Repr
    ensures trie.Valid() && fresh(trie.Repr - old(trie.Repr))
    ensures trie.Words == old(trie.Words) + set j | 0 <= j < |words| :: words[j]
    ensures forall s :: s in trie.Paths ==>
      s in old(trie.Paths) || exists j :: 0 <= j < |words| && s <= words[j]
  {
    for i := 0 to |words|
      invariant trie.Valid() && fresh(trie.Repr - old(trie.Repr))
      invariant trie.Words == old(trie.Words) + set j | 0 <= j < i :: words[j]
      invariant forall s :: s in trie.Paths ==>
        s in old(trie.Paths) || exists j :: 0 <= j < i && s <= words[j]
    {
      trie.Insert(words[i]);
      assert (set j | 0 <= j < i + 1 :: words[j]) == (set j | 0 <= j < i :: words[j]) + {words[i]};
    }
  }

  /** Every node of the trie lies on the path of a stored word: each path is
      a prefix of "cart" (and so of "car" too), "cat" or "dog". */
  ghost predicate OnlyStoredPaths(paths: map<string, RWayTrieNode>)
  {
    forall s :: s in paths ==> s <= "cart" || s <= "cat" || s <= "dog"
  }

  /** Inserting the four words, one of them twice, stores exactly them and
      creates no node off their paths. */
  method Build() returns (trie: RWayTrie)
    ensures trie.Valid() && fresh(trie.Repr)
    ensures trie.Words == Stored && OnlyStoredPaths(trie.Paths)
  {
    trie := new RWayTrie();
    ghost var start := trie.Paths;
    var words := ["cat", "car", "cart", "dog", "cat"];
    InsertAll(trie, words);
    assert (set j | 0 <= j < |words| :: words[j]) == Stored by {
      assert words[0] == "cat" && words[1] == "car" && words[2] == "cart" && words[3] == "dog";
    }
    assert OnlyStoredPaths(trie.Paths) by {
      OnlyListedPaths(trie.Paths, start, words);
    }
  }

  /** A path that is the root's or a prefix of one of the inserted words is a
      prefix of a stored word. */
  lemma OnlyListedPaths(paths: map<string, RWayTrieNode>, start: map<string, RWayTrieNode>, words: seq<string>)
    requires words == ["cat", "car", "cart", "dog", "cat"] && start.Keys == {""}
    requires forall s :: s in paths ==> s in start || exists j :: 0 <= j < |words| && s <= words[j]
    ensures OnlyStoredPaths(paths)
  {
  }

  method MatchCa(trie: RWayTrie) returns (ca: seq<string>)
    requires trie.Valid() && trie.Words == Stored
    ensures ca == ["car", "cart", "cat"]
  {
    ca := trie.PrefixMatch("ca");
    PrefixBefore("car", "cart");
    BranchBefore("ca", 'r', 't', "car", "cat");
    BranchBefore("ca", 'r', 't', "cart", "cat");
    AscendingUnique(ca, ["car", "cart", "cat"]);
  }

  /** "z" starts no stored word, so in a trie built as by `Build` the root's
      slot for 'z' is empty: the walk for prefix "z" stops there. */
  lemma RootSlotZEmpty(trie: RWayTrie)
    requires trie.Valid() && OnlyStoredPaths(trie.Paths)
    ensures trie.root.children['z' as int] == null
  {
    assert "cart"[0] != 'z' && "cat"[0] != 'z' && "dog"[0] != 'z';
    assert "z" !in trie.Paths;
    trie.SlotOf("", 'z');
    assert "" + ['z'] == "z";
  }

  /** Prefix "do" lists only "dog"; prefix "z" stops at the root's empty
      slot and lists nothing. */
  method MatchDoAndZ(trie: RWayTrie) returns (dogs: seq<string>, none: seq<string>)
    requires trie.Valid() && trie.Words == Stored && OnlyStoredPaths(trie.Paths)
    ensures dogs == ["dog"] && none == []
    ensures trie.root.children['z' as int] == null
  {
    RootSlotZEmpty(trie);
    dogs := trie.PrefixMatch("do");
    AscendingUnique(dogs, ["dog"]);
    none := trie.PrefixMatch("z");
    AscendingUnique(none, []);
  }

  /** The empty prefix lists every stored word. */
  method MatchEmpty(trie: RWayTrie) returns (everything: seq<string>)
    requires trie.Valid() && trie.Words == Stored
    ensures everything == ["car", "cart", "cat", "dog"]
  {
    everything := trie.PrefixMatch("");
    PrefixBefore("car", "cart");
    BranchBefore("ca", 'r', 't', "car", "cat");
    BranchBefore("ca", 'r', 't', "cart", "cat");
    BranchBefore("", 'c', 'd', "car", "dog");
    BranchBefore("", 'c', 'd', "cart", "dog");
    BranchBefore("", 'c', 'd', "cat", "dog");
    AscendingUnique(everything, ["car", "cart", "cat", "dog"]);
  }

  /** A strict prefix of stored words that was never inserted is not found. */
  method SearchCaAndCat(trie: RWayTrie) returns (hasCa: bool, hasCat: bool)
    requires trie.Valid() && trie.Words == Stored
    ensures !hasCa && hasCat
  {
    hasCa := trie.Search("ca");
    hasCat := trie.Search("cat");
  }

  /** The empty word is stored at the root: it is absent from a new trie,
      present once inserted, and then listed for the empty prefix. */
  method EmptyWord() returns (before: bool, after: bool, listed: seq<string>)
    ensures !before && after && listed == [""]
  {
    var trie := new RWayTrie();
    before := trie.Search("");
    trie.Insert("");
    after := trie.Search("");
    listed := trie.PrefixMatch("");
    AscendingUnique(listed, [""]);
  }
}
