/**
 * The page's persistent key-value store (`window.localStorage`): an ordered list of
 * string entries with distinct keys. `setItem` on a key already present replaces its
 * value in place; a new key is appended after the existing ones. `key(i)` names the
 * entry at position `i` in that order.
 */
module WebStorage {
  import opened Wrappers

  datatype Entry = Entry(key: string, value: string)

  /** No key occurs twice: a storage area maps each key to one value. */
  ghost predicate DistinctKeys(s: seq<Entry>) {
    forall i, j :: 0 <= i < j < |s| ==> s[i].key != s[j].key
  }

  /** `getItem(key)`: the value stored under `key`, or `None` (JavaScript `null`). */
  function Lookup(s: seq<Entry>, key: string): (r: Option<string>)
    ensures r.None? <==> forall i :: 0 <= i < |s| ==> s[i].key != key
    ensures r.Some? ==> exists i :: 0 <= i < |s| && s[i] == Entry(key, r.value)
  {
    if s == [] then None
    else if s[0].key == key then Some(s[0].value)
    else Lookup(s[1..], key)
  }

  /** `setItem(key, value)`: replace the value of a present key, else append a new entry. */
  function Put(s: seq<Entry>, key: string, value: string): (r: seq<Entry>)
    ensures Lookup(s, key).Some? ==> |r| == |s|
    ensures Lookup(s, key).None? ==> r == s + [Entry(key, value)]
  {
    if s == [] then [Entry(key, value)]
    else if s[0].key == key then [Entry(key, value)] + s[1..]
    else [s[0]] + Put(s[1..], key, value)
  }

  /** `removeItem(key)`: drop the entry under `key`, if any. */
  function Remove(s: seq<Entry>, key: string): (r: seq<Entry>)
    ensures Lookup(r, key).None?
    ensures |r| <= |s|
  {
    if s == [] then []
    else if s[0].key == key then Remove(s[1..], key)
    else [s[0]] + Remove(s[1..], key)
  }

  /** After `setItem(key, value)`, `getItem(key)` gives `value` and no other key changes. */
  lemma {:induction false} LookupPut(s: seq<Entry>, key: string, value: string, other: string)
    ensures Lookup(Put(s, key, value), key) == Some(value)
    ensures other != key ==> Lookup(Put(s, key, value), other) == Lookup(s, other)
  {
    if s != [] && s[0].key != key {
      LookupPut(s[1..], key, value, other);
    }
  }

  /** After `removeItem(key)` no other key changes. */
  lemma {:induction false} LookupRemove(s: seq<Entry>, key: string, other: string)
    requires other != key
    ensures Lookup(Remove(s, key), other) == Lookup(s, other)
  {
    if s != [] {
      LookupRemove(s[1..], key, other);
    }
  }

  /** Writing a key keeps the keys distinct. */
  lemma {:induction false} PutDistinct(s: seq<Entry>, key: string, value: string)
    requires DistinctKeys(s)
    ensures DistinctKeys(Put(s, key, value))
  {
    if s != [] {
      TailDistinct(s);
      if s[0].key == key {
        ConsDistinct(Entry(key, value), s[1..]);
      } else {
        var rest := Put(s[1..], key, value);
        PutDistinct(s[1..], key, value);
        LookupPut(s[1..], key, value, s[0].key);
        ConsDistinct(s[0], rest);
      }
    }
  }

  /** The tail of a store with distinct keys has distinct keys and lacks the head's key. */
  lemma TailDistinct(s: seq<Entry>)
    requires DistinctKeys(s) && s != []
    ensures DistinctKeys(s[1..]) && Lookup(s[1..], s[0].key).None?
  {
    var tail := s[1..];
    forall i, j | 0 <= i < j < |tail| ensures tail[i].key != tail[j].key {
      assert tail[i] == s[i + 1] && tail[j] == s[j + 1];
    }
    forall i | 0 <= i < |tail| ensures tail[i].key != s[0].key {
      assert tail[i] == s[i + 1];
    }
  }

  /** Prepending an entry whose key is absent keeps the keys distinct. */
  lemma ConsDistinct(e: Entry, s: seq<Entry>)
    requires DistinctKeys(s) && Lookup(s, e.key).None?
    ensures DistinctKeys([e] + s)
  {
    var r := [e] + s;
    forall i, j | 0 <= i < j < |r| ensures r[i].key != r[j].key {
      assert r[j] == s[j - 1];
      if i > 0 { assert r[i] == s[i - 1]; }
    }
  }

  /** Writing the same key twice keeps only the second value. */
  lemma {:induction false} PutPut(s: seq<Entry>, key: string, v1: string, v2: string)
    ensures Put(Put(s, key, v1), key, v2) == Put(s, key, v2)
  {
    if s != [] && s[0].key != key {
      PutPut(s[1..], key, v1, v2);
    }
  }

  /** Removing a key that is absent changes nothing. */
  lemma {:induction false} RemoveAbsent(s: seq<Entry>, key: string)
    requires Lookup(s, key).None?
    ensures Remove(s, key) == s
  {
    if s != [] {
      RemoveAbsent(s[1..], key);
    }
  }

  /** Removing from a concatenation removes from each part. */
  lemma {:induction false} RemoveConcat(a: seq<Entry>, b: seq<Entry>, key: string)
    ensures Remove(a + b, key) == Remove(a, key) + Remove(b, key)
  {
    if a != [] {
      assert (a + b)[1..] == a[1..] + b;
      RemoveConcat(a[1..], b, key);
    } else {
      assert a + b == b;
    }
  }

  /** The browser's `Storage` object for one origin. */
  class Store {
    var entries: seq<Entry>

    ghost predicate Valid()
      reads this
    {
      DistinctKeys(entries)
    }

    constructor (initial: seq<Entry>)
      requires DistinctKeys(initial)
      ensures Valid() && entries == initial
    {
      entries := initial;
    }

    /** `length`. */
    function Length(): (n: nat)
      reads this
      ensures n == |entries|
    {
      |entries|
    }

    /** `key(i)`: the key at position `i`, or `None` past the end. */
    method Key(i: int) returns (k: Option<string>)
      ensures 0 <= i < |entries| ==> k == Some(entries[i].key)
      ensures !(0 <= i < |entries|) ==> k == None
    {
      k := if 0 <= i < |entries| then Some(entries[i].key) else None;
    }

    /** `getItem(key)`. */
    method GetItem(key: string) returns (v: Option<string>)
      ensures v == Lookup(entries, key)
    {
      v := Lookup(entries, key);
    }

    /** `setItem(key, value)`. */
    method SetItem(key: string, value: string)
      requires Valid()
      modifies this
      ensures Valid()
      ensures entries == Put(old(entries), key, value)
    {
      PutDistinct(entries, key, value);
      entries := Put(entries, key, value);
    }

    /** `removeItem(key)`. */
    method RemoveItem(key: string)
      requires Valid()
      modifies this
      ensures Valid()
      ensures entries == Remove(old(entries), key)
    {
      RemoveDistinct(entries, key);
      entries := Remove(entries, key);
    }
  }

  /** Removing a key keeps the keys distinct. */
  lemma {:induction false} RemoveDistinct(s: seq<Entry>, key: string)
    requires DistinctKeys(s)
    ensures DistinctKeys(Remove(s, key))
  {
    if s != [] {
      TailDistinct(s);
      RemoveDistinct(s[1..], key);
      if s[0].key != key {
        var rest := Remove(s[1..], key);
        if Lookup(rest, s[0].key).Some? {
          RemoveKeepsOnlyPresent(s[1..], key, s[0].key);
        }
        ConsDistinct(s[0], rest);
      }
    }
  }

  /** Every key still present after `removeItem` was present before. */
  lemma {:induction false} RemoveKeepsOnlyPresent(s: seq<Entry>, key: string, other: string)
    requires Lookup(Remove(s, key), other).Some?
    ensures Lookup(s, other).Some?
  {
    if s != [] && other != s[0].key {
      RemoveKeepsOnlyPresent(s[1..], key, other);
    }
  }
}
