/**
 * pygtrie's `CharTrie`, seen through the operations the core uses:
 * `trie[key] = value`, `has_subtrie(prefix)` and `iterkeys(prefix)`.
 *
 * The node structure is abstracted to the stored keys and their payloads
 * (`entries`) together with the order in which a traversal of the whole
 * trie visits the keys (`order`). pygtrie does not document that order, and
 * nothing below depends on what it is. A traversal of the node for a prefix
 * visits exactly the keys under that prefix, in the order the whole-trie
 * traversal visits them, so `iterkeys(prefix)` is `order` filtered by prefix.
 */
module Tries {
  import opened Strings
  import opened Wrappers
  import opened Seqs

  /** The elements of `s` that start with `prefix`, in their order in `s`. */
  function FilterPrefix(s: seq<String>, prefix: String): (r: seq<String>)
    ensures forall k :: k in r <==> k in s && prefix <= k
    ensures Distinct(s) ==> Distinct(r)
  {
    if s == [] then []
    else
      var rest := FilterPrefix(s[1..], prefix);
      assert s == [s[0]] + s[1..];
      assert Distinct(s) ==> s[0] !in rest && Distinct(s[1..]);
      if prefix <= s[0] then [s[0]] + rest else rest
  }

  class CharTrie<V> {
    /** Each stored key with its payload. */
    var entries: map<String, V>
    /** The traversal order of the stored keys. */
    var order: seq<String>

    ghost predicate Valid()
      reads this
    {
      Distinct(order) && Elems(order) == entries.Keys
    }

    /** `CharTrie()`: no keys. */
    constructor ()
      ensures Valid() && entries == map[]
    {
      entries := map[];
      order := [];
    }

    /**
     * `trie[key] = value`: the payload of an existing key is overwritten and
     * the order is kept; a new key is visited somewhere among the old ones,
     * whose relative order does not change.
     */
    method Set(key: String, value: V)
      requires Valid()
      modifies this
      ensures Valid()
      ensures entries == old(entries)[key := value]
      ensures key in old(entries) ==> order == old(order)
      ensures key !in old(entries) ==>
        exists i :: 0 <= i <= |old(order)| && order == old(order)[..i] + [key] + old(order)[i..]
    {
      if key !in entries {
        assert order == order[..|order|] + [] ;
        order := order + [key];
      }
      entries := entries[key := value];
    }

    /**
     * `has_subtrie(prefix)`: the node for `prefix` has children, that is,
     * some stored key extends `prefix` by at least one character. A prefix
     * that is itself a stored key and extends to no other key has no subtrie.
     */
    predicate HasSubtrie(prefix: String)
      reads this
    {
      exists k :: k in entries && prefix < k
    }

    /** The node for `prefix` exists: it is the root or lies on the path of a stored key. */
    predicate HasNode(prefix: String)
      reads this
    {
      prefix == [] || exists k :: k in entries && prefix <= k
    }

    /** The keys under `prefix`, in traversal order. */
    function KeysWithPrefix(prefix: String): (ks: seq<String>)
      reads this
      requires Valid()
      ensures Distinct(ks)
      ensures forall k :: k in ks <==> k in entries && prefix <= k
    {
      FilterPrefix(order, prefix)
    }

    /** `iterkeys(prefix)`: the keys under the node for `prefix`, or `KeyError` when there is no such node. */
    function IterKeys(prefix: String): (r: Result<seq<String>, PyException>)
      reads this
      requires Valid()
      ensures r.Failure? <==> !HasNode(prefix)
      ensures r.Failure? ==> r.error == KeyError
      ensures r.Success? ==> Distinct(r.value)
      ensures r.Success? ==> forall k :: k in r.value <==> k in entries && prefix <= k
    {
      if HasNode(prefix) then Success(KeysWithPrefix(prefix)) else Failure(KeyError)
    }
  }

  /** A subtrie under `prefix` means `iterkeys(prefix)` succeeds and yields a key longer than `prefix`. */
  lemma SubtrieHasKeys<V>(trie: CharTrie<V>, prefix: String)
    requires trie.Valid()
    requires trie.HasSubtrie(prefix)
    ensures trie.IterKeys(prefix).Success?
    ensures exists k :: k in trie.IterKeys(prefix).value && |k| > |prefix|
  {
    var k :| k in trie.entries && prefix < k;
    assert k in trie.IterKeys(prefix).value;
  }

  /**
   * For a prefix that is not itself a stored key, `has_subtrie` holds exactly
   * when some key starts with the prefix.
   */
  lemma SubtrieOfNonKey<V>(trie: CharTrie<V>, prefix: String)
    requires trie.Valid()
    requires prefix !in trie.entries
    ensures trie.HasSubtrie(prefix) <==> trie.KeysWithPrefix(prefix) != []
  {
    if trie.KeysWithPrefix(prefix) != [] {
      var k := trie.KeysWithPrefix(prefix)[0];
      assert k in trie.entries && prefix <= k && k != prefix;
    }
  }

  /** A prefix that some key starts with has a node, so `iterkeys` fails only where no key lies under the prefix. */
  lemma KeysLieUnderNode<V>(trie: CharTrie<V>, prefix: String)
    requires trie.Valid()
    ensures trie.KeysWithPrefix(prefix) != [] ==> trie.HasNode(prefix)
  {
    var ks := trie.KeysWithPrefix(prefix);
    if ks != [] {
      assert ks[0] in ks;
    }
  }

  /** Every proper prefix of a stored key has a subtrie. */
  lemma ProperPrefixesHaveSubtrie<V>(trie: CharTrie<V>, w: String, n: nat)
    requires w in trie.entries
    requires n < |w|
    ensures trie.HasSubtrie(w[..n])
  {
    assert w[..n] < w;
  }
}
