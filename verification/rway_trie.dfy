/** An R-way trie over the character codes 0..R-1. Each node owns an array of
    R child slots, indexed by character code, and a flag saying whether the
    path from the root to the node spells a stored word. */
module RWayTrieCode {
  import opened Ordering

  /** Number of child slots of every node. */
  const R := 126

  /** Every character of `s` has a slot: its code is below R. A character
      with a larger code would index past the end of a node's child array. */
  predicate InAlphabet(s: string)
  {
    forall i :: 0 <= i < |s| ==> s[i] as int < R
  }

  /** `key + [c]` is a prefix of `w` exactly when `key` is and `c` follows it
      in `w`. */
  lemma ExtendsChild(key: string, c: char, w: string)
    ensures key + [c] <= w <==> key <= w && |key| < |w| && w[|key|] == c
  {
  }

  /** Every prefix of a key of `m` is a key of `m`. */
  ghost predicate PrefixClosed<V>(m: map<string, V>)
  {
    forall s, k :: s in m && 0 <= k <= |s| ==> s[..k] in m
  }

  /** Adding a one-character extension of a key keeps a map prefix-closed. */
  lemma PrefixClosedAdd<V>(m: map<string, V>, k: string, c: char, v: V)
    requires PrefixClosed(m) && k in m
    ensures PrefixClosed(m[k + [c] := v])
  {
    var child := k + [c];
    forall s, j | s in m[child := v] && 0 <= j <= |s|
      ensures s[..j] in m[child := v]
    {
      if s == child {
        if j <= |k| {
          assert s[..j] == k[..j];
        } else {
          assert s[..j] == child;
        }
      }
    }
  }

  /** Words below slot `c` of the node at `key` come after the word at `key`
      and after every word below a smaller slot. */
  lemma ChildAfter(key: string, c: char, before: seq<string>, below: seq<string>)
    requires forall x :: x in before ==> key <= x && (|x| == |key| || x[|key|] as int < c as int)
    requires forall y :: y in below ==> key + [c] <= y
    ensures forall x, y :: x in before && y in below ==> Before(x, y)
  {
    forall x, y | x in before && y in below
      ensures Before(x, y)
    {
      ExtendsChild(key, c, y);
      if |x| == |key| {
        assert x == key;
        PrefixBefore(x, y);
      } else {
        ExtendsChild(key, x[|key|], x);
        BranchBefore(key, x[|key|], c, x, y);
      }
    }
  }

  class RWayTrieNode {
    const children: array<RWayTrieNode?>
    var isEndOfWord: bool

    /** A leaf: all R slots empty, not the end of a word. */
    constructor ()
      ensures fresh(children) && children.Length == R
      ensures forall i :: 0 <= i < R ==> children[i] == null
      ensures !isEndOfWord
    {
      children := new RWayTrieNode?[R](_ => null);
      isEndOfWord := false;
    }
  }

  /** The growable character buffer that prefix enumeration shares between
      its recursive calls. */
  class CharBuilder {
    var chars: seq<char>

    constructor ()
      ensures chars == []
    {
      chars := [];
    }

    method Append(c: char)
      modifies this
      ensures chars == old(chars) + [c]
    {
      chars := chars + [c];
    }

    /** Drops the last character (decrementing the length by one). */
    method Shorten()
      requires |chars| > 0
      modifies this
      ensures chars == old(chars)[..|old(chars)| - 1]
    {
      chars := chars[..|chars| - 1];
    }
  }

  class RWayTrie {
    var root: RWayTrieNode

    /** Every string spelled by a path from the root, mapped to the node the
        path ends at. */
    ghost var Paths: map<string, RWayTrieNode>
    /** The stored words. */
    ghost var Words: set<string>
    /** The path of the node that owns each child array. */
    ghost var Owner: map<array<RWayTrieNode?>, string>
    /** The trie object, its nodes and their child arrays. */
    ghost var Repr: set<object>

    ghost predicate Valid()
      reads this, Repr
    {
      && this in Repr
      && "" in Paths && Paths[""] == root
      && (forall s {:trigger Paths[s]} :: s in Paths ==>
            && Paths[s] in Repr && Paths[s].children in Repr
            && Paths[s].children.Length == R && InAlphabet(s)
            // no node and no child array is shared between two paths
            && Paths[s].children in Owner && Owner[Paths[s].children] == s)
      // every prefix of a path is a path
      && PrefixClosed(Paths)
      // slot i of the node at s holds the node at s + [i], or is empty
      && (forall s, i :: s in Paths && 0 <= i < R ==>
            Paths[s].children[i] == (if s + [i as char] in Paths then Paths[s + [i as char]] else null))
      && (forall w {:trigger w in Words} :: w in Words <==> w in Paths && Paths[w].isEndOfWord)
    }

    /** The paths that extend `key`: the nodes of the subtree below it. */
    ghost function Subtree(key: string): set<string>
      reads this
    {
      set s | s in Paths && key <= s
    }

    /** Slot `c` of the node at path `s` holds the node at `s + [c]`, or is
        empty when `s + [c]` is not a path. */
    lemma SlotOf(s: string, c: char)
      requires Valid() && s in Paths && c as int < R
      ensures Paths[s].children.Length == R
      ensures Paths[s].children[c as int] == (if s + [c] in Paths then Paths[s + [c]] else null)
    {
    }

    constructor ()
      ensures Valid() && fresh(Repr)
      ensures Words == {} && Paths.Keys == {""}
    {
      var node := new RWayTrieNode();
      root := node;
      Paths := map["" := node];
      Owner := map[node.children := ""];
      Words := {};
      Repr := {this, node, node.children};
    }

    /** Adds `word` unless it is already stored. */
    method Insert(word: string)
      requires Valid() && InAlphabet(word)
      modifies Repr
      ensures Valid() && fresh(Repr - old(Repr))
      ensures Words == old(Words) + {word}
      ensures forall s :: s in old(Paths) ==> s in Paths && Paths[s] == old(Paths)[s]
      ensures forall s :: s in Paths ==> s in old(Paths) || s <= word
      ensures forall s :: s in Paths && s !in old(Paths) ==> fresh(Paths[s])
      ensures old(word in Words) ==> Repr == old(Repr) && unchanged(old(Repr))
    {
      var present := Search(word);
      if present {
        return;
      }
      InsertTrie(word);
    }
    /** A string that is not a path is a prefix of no stored word. */
    lemma NotPathNoWords(p: string)
      requires Valid() && p !in Paths
      ensures forall w :: w in Words ==> !(p <= w)
    {
      forall w | w in Words && |p| <= |w|
        ensures w[..|p|] != p
      {
        assert w[..|p|] in Paths;
      }
    }

    /** No stored word continues `key` with a character whose slot is empty. */
    lemma EmptySlotNoWords(key: string, c: char)
      requires Valid() && key in Paths && c as int < R
      requires Paths[key].children[c as int] == null
      ensures forall w :: w in Words && key <= w && |key| < |w| ==> w[|key|] != c
    {
      SlotOf(key, c);
      NotPathNoWords(key + [c]);
      forall w | w in Words && key <= w && |key| < |w|
        ensures w[|key|] != c
      {
        ExtendsChild(key, c, w);
      }
    }

    /** The subtree below a child is smaller than the subtree of its parent. */
    lemma SubtreeShrinks(key: string, c: char)
      requires key in Paths
      ensures Subtree(key + [c]) < Subtree(key)
    {
      assert key in Subtree(key) && key !in Subtree(key + [c]);
      forall s | s in Subtree(key + [c])
        ensures s in Subtree(key)
      {
        ExtendsChild(key, c, s);
      }
    }

    /** Hangs a new, empty node in the empty slot `c` of the node `curr` at
        path `k`. */
    method AddChild(curr: RWayTrieNode, ghost k: string, c: char) returns (node: RWayTrieNode)
      requires Valid() && k in Paths && Paths[k] == curr && c as int < R
      requires curr.children[c as int] == null
      modifies this, curr.children
      ensures Valid() && fresh(Repr - old(Repr)) && fresh(node)
      ensures Paths == old(Paths)[k + [c] := node] && Words == old(Words)
      ensures curr.children[c as int] == node
    {
      SlotOf(k, c);
      ghost var child := k + [c];
      assert child !in Paths;
      node := new RWayTrieNode();
      curr.children[c as int] := node;
      Paths := Paths[child := node];
      Owner := Owner[node.children := child];
      Repr := Repr + {node, node.children};
      PrefixClosedAdd(old(Paths), k, c, node);
      forall s, i | s in Paths && 0 <= i < R
        ensures Paths[s].children[i] == (if s + [i as char] in Paths then Paths[s + [i as char]] else null)
      {
        assert (s + [i as char])[..|s|] == s && child[..|k|] == k;
        if s == child {
          assert s + [i as char] !in Paths;
        } else if s == k && i == c as int {
          assert s + [i as char] == child;
        } else {
          assert s + [i as char] != child;
        }
      }
    }

    /** Walks `word` from the root, creating every missing node on the way,
        and marks the node reached as the end of a word. */
    method InsertTrie(word: string)
      requires Valid() && InAlphabet(word)
      modifies Repr
      ensures Valid() && fresh(Repr - old(Repr))
      ensures Words == old(Words) + {word}
      ensures forall s :: s in old(Paths) ==> s in Paths && Paths[s] == old(Paths)[s]
      ensures forall s :: s in Paths ==> s in old(Paths) || s <= word
      ensures forall s :: s in Paths && s !in old(Paths) ==> fresh(Paths[s])
    {
      var curr := root;
      for i := 0 to |word|
        invariant Valid() && fresh(Repr - old(Repr))
        invariant Words == old(Words)
        invariant forall s :: s in old(Paths) ==> s in Paths && Paths[s] == old(Paths)[s]
        invariant forall s :: s in Paths ==> s in old(Paths) || s <= word
        invariant forall s :: s in Paths && s !in old(Paths) ==> fresh(Paths[s])
        invariant word[..i] in Paths && Paths[word[..i]] == curr
      {
        var index := word[i] as int;
        SlotOf(word[..i], word[i]);
        assert word[..i] + [word[i]] == word[..i + 1];
        if curr.children[index] == null {
          var node := AddChild(curr, word[..i], word[i]);
          assert word[..i + 1] <= word;
        }
        curr := curr.children[index];
      }
      assert word[..|word|] == word;
      curr.isEndOfWord := true;
      Words := Words + {word};
    }

    /** Whether `word` is stored. */
    method Search(word: string) returns (found: bool)
      requires Valid() && InAlphabet(word)
      ensures found <==> word in Words
    {
      found := SearchTrie(word);
    }

    /** Walks `word` from the root; fails at the first empty slot, otherwise
        answers with the end-of-word flag of the node reached. */
    method SearchTrie(word: string) returns (found: bool)
      requires Valid() && InAlphabet(word)
      ensures found <==> word in Words
    {
      var curr := root;
      for i := 0 to |word|
        invariant word[..i] in Paths && Paths[word[..i]] == curr
      {
        var index := word[i] as int;
        SlotOf(word[..i], word[i]);
        assert word[..i] + [word[i]] == word[..i + 1];
        if curr.children[index] == null {
          NotPathNoWords(word[..i + 1]);
          return false;
        }
        curr := curr.children[index];
      }
      assert word[..|word|] == word;
      return curr.isEndOfWord;
    }

    /** The stored words that start with `prefix`, in ascending order. */
    method PrefixMatch(prefix: string) returns (words: seq<string>)
      requires Valid() && InAlphabet(prefix)
      ensures forall w :: w in words <==> w in Words && prefix <= w
      ensures StrictlyAscending(words)
    {
      var curr := root;
      var prefixBuilder := new CharBuilder();
      for i := 0 to |prefix|
        invariant prefixBuilder.chars == prefix[..i]
        invariant prefix[..i] in Paths && Paths[prefix[..i]] == curr
      {
        var index := prefix[i] as int;
        SlotOf(prefix[..i], prefix[i]);
        assert prefix[..i] + [prefix[i]] == prefix[..i + 1];
        if curr.children[index] == null {
          // no words with the given prefix
          NotPathNoWords(prefix[..i + 1]);
          return [];
        }
        prefixBuilder.Append(prefix[i]);
        curr := curr.children[index];
      }
      assert prefix[..|prefix|] == prefix;
      words := FindWordsWithPrefix(curr, prefixBuilder);
    }

    /** Lists, in pre-order, the words stored at `node` and below it, where
        `currentWord` spells the path to `node`; `currentWord` is left as it
        was found. */
    method FindWordsWithPrefix(node: RWayTrieNode, currentWord: CharBuilder) returns (found: seq<string>)
      requires Valid() && currentWord !in Repr
      requires currentWord.chars in Paths && Paths[currentWord.chars] == node
      modifies currentWord
      ensures currentWord.chars == old(currentWord.chars)
      ensures forall w :: w in found <==> w in Words && old(currentWord.chars) <= w
      ensures StrictlyAscending(found)
      decreases Subtree(currentWord.chars)
    {
      ghost var key := currentWord.chars;
      found := [];
      if node.isEndOfWord {
        found := [currentWord.chars];
      }
      forall w | key <= w && |w| == |key|
        ensures w == key
      {
        assert w[..|key|] == w;
      }
      for i := 0 to node.children.Length
        invariant currentWord.chars == key
        invariant forall w :: w in found <==>
          w in Words && key <= w && (|w| == |key| || w[|key|] as int < i)
        invariant StrictlyAscending(found)
      {
        SlotOf(key, i as char);
        if node.children[i] != null {
          currentWord.Append(i as char);
          SubtreeShrinks(key, i as char);
          var below := FindWordsWithPrefix(node.children[i], currentWord);
          currentWord.Shorten();
          ChildAfter(key, i as char, found, below);
          AppendAscending(found, below);
          forall w
            ensures w in below <==> w in Words && key <= w && |key| < |w| && w[|key|] == i as char
          {
            ExtendsChild(key, i as char, w);
          }
          found := found + below;
        } else {
          EmptySlotNoWords(key, i as char);
        }
      }
      forall w | w in Words && key <= w && |key| < |w|
        ensures w[|key|] as int < R
      {
        assert InAlphabet(w);
      }
    }
  }
}
