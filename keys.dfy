/**
 * The pressed-key list of the event thread: a `Vec<VirtualKeyCode>` used as a
 * set. A press appends a key that is absent; a release removes the key at the
 * position where it is found.
 */
module Keys {
  import opened Base

  /** The key codes the program distinguishes; every other code is `Other`. */
  datatype Key = A | D | W | S | Space | LShift | Escape | Q | Other(code: nat)

  /** No key occurs twice in the list. */
  predicate NoDuplicates(s: seq<Key>) {
    forall i, j :: 0 <= i < j < |s| ==> s[i] != s[j]
  }

  /** The position of the first occurrence of `k`. */
  function FirstIndex(s: seq<Key>, k: Key): (i: nat)
    requires k in s
    ensures i < |s| && s[i] == k && k !in s[..i]
  {
    if s[0] == k then 0
    else
      var j := FirstIndex(s[1..], k);
      assert s[..j + 1] == [s[0]] + s[1..][..j];
      j + 1
  }

  /** `s` without its element at position `i`; the others keep their order. */
  function RemoveAt(s: seq<Key>, i: nat): seq<Key>
    requires i < |s|
  {
    s[..i] + s[i + 1..]
  }

  /** The list after a press of `k`. */
  function AfterPress(s: seq<Key>, k: Key): seq<Key> {
    if k in s then s else s + [k]
  }

  /** The list after a release of `k`. */
  function AfterRelease(s: seq<Key>, k: Key): seq<Key> {
    if k in s then RemoveAt(s, FirstIndex(s, k)) else s
  }

  /** `Vec::contains`: a linear scan. */
  method Contains(s: seq<Key>, k: Key) returns (found: bool)
    ensures found <==> k in s
  {
    var i := 0;
    while i < |s|
      invariant 0 <= i <= |s|
      invariant k !in s[..i]
    {
      if s[i] == k {
        return true;
      }
      assert s[..i + 1] == s[..i] + [s[i]];
      i := i + 1;
    }
    assert s[..i] == s;
    return false;
  }

  /** `Iterator::position`: the index of the first element equal to `k`, if any. */
  method Position(s: seq<Key>, k: Key) returns (r: Option<nat>)
    ensures r.None? <==> k !in s
    ensures r.Some? ==> r.value < |s| && s[r.value] == k && k !in s[..r.value]
  {
    var i := 0;
    while i < |s|
      invariant 0 <= i <= |s|
      invariant k !in s[..i]
    {
      if s[i] == k {
        return Some(i);
      }
      assert s[..i + 1] == s[..i] + [s[i]];
      i := i + 1;
    }
    assert s[..i] == s;
    return None;
  }

  /** The shared key list, mutated in place by the event thread. */
  class PressedKeys {
    var keys: seq<Key>

    predicate Valid()
      reads this
    {
      NoDuplicates(keys)
    }

    /** `Vec::with_capacity(10)`: an empty list. */
    constructor ()
      ensures keys == [] && Valid()
    {
      keys := [];
    }

    /** A `Pressed` transition: push the key unless it is already there. */
    method Press(k: Key)
      modifies this
      ensures keys == AfterPress(old(keys), k)
      ensures old(Valid()) ==> Valid()
    {
      var present := Contains(keys, k);
      if !present {
        keys := keys + [k];
      }
      PressKeepsNoDuplicates(old(keys), k);
    }

    /** A `Released` transition: find the key's position and remove it if present. */
    method Release(k: Key)
      modifies this
      ensures keys == AfterRelease(old(keys), k)
      ensures old(Valid()) ==> Valid()
    {
      var present := Contains(keys, k);
      if present {
        var p := Position(keys, k);
        var i := p.value;
        assert i == FirstIndex(keys, k) by {
          FirstIndexUnique(keys, k, i);
        }
        keys := keys[..i] + keys[i + 1..];
      }
      ReleaseKeepsNoDuplicates(old(keys), k);
    }
  }

  /** The first occurrence is the only index with that property. */
  lemma FirstIndexUnique(s: seq<Key>, k: Key, i: nat)
    requires i < |s| && s[i] == k && k !in s[..i]
    ensures i == FirstIndex(s, k)
  {
  }

  /** A press of an absent key appends it at the end; a repeated press changes nothing. */
  lemma PressAppendsOnlyAbsent(s: seq<Key>, k: Key)
    ensures k !in s ==> AfterPress(s, k) == s + [k]
    ensures k in s ==> AfterPress(s, k) == s
    ensures AfterPress(AfterPress(s, k), k) == AfterPress(s, k)
  {
  }

  /** A press keeps the list free of duplicates, makes `k` a member and adds nothing else. */
  lemma {:induction false} PressKeepsNoDuplicates(s: seq<Key>, k: Key)
    ensures NoDuplicates(s) ==> NoDuplicates(AfterPress(s, k))
    ensures k in AfterPress(s, k)
    ensures forall x :: x in AfterPress(s, k) <==> x in s || x == k
  {
    var r := AfterPress(s, k);
    if k !in s && NoDuplicates(s) {
      forall i, j | 0 <= i < j < |r| ensures r[i] != r[j] {
        if j == |s| {
          assert r[i] == s[i];
        }
      }
    }
  }

  /**
   * A release of a present key removes exactly the element at its first
   * position, keeping the rest in order; the multiset loses one `k`.
   * A release of an absent key changes nothing.
   */
  lemma ReleaseRemovesOne(s: seq<Key>, k: Key)
    ensures k !in s ==> AfterRelease(s, k) == s
    ensures k in s ==> exists i :: 0 <= i < |s| && s[i] == k && AfterRelease(s, k) == s[..i] + s[i + 1..]
    ensures |AfterRelease(s, k)| == if k in s then |s| - 1 else |s|
    ensures multiset(AfterRelease(s, k)) == multiset(s) - multiset{k}
  {
    if k in s {
      var i := FirstIndex(s, k);
      assert s == s[..i] + [s[i]] + s[i + 1..];
      assert multiset(s) == multiset(s[..i]) + multiset{k} + multiset(s[i + 1..]);
    } else {
      assert multiset(s)[k] == 0;
    }
  }

  /** On a list without duplicates a release keeps it so, and `k` is no longer a member. */
  lemma ReleaseKeepsNoDuplicates(s: seq<Key>, k: Key)
    ensures NoDuplicates(s) ==> NoDuplicates(AfterRelease(s, k))
    ensures NoDuplicates(s) ==> k !in AfterRelease(s, k)
    ensures NoDuplicates(s) ==> forall x :: x in AfterRelease(s, k) <==> x in s && x != k
  {
    if k in s && NoDuplicates(s) {
      var i := FirstIndex(s, k);
      var r := AfterRelease(s, k);
      assert |r| == |s| - 1;
      assert forall m :: 0 <= m < |r| ==> r[m] == if m < i then s[m] else s[m + 1];
      forall m | 0 <= m < |r| ensures r[m] != k {
        if m < i { assert s[m] != s[i]; } else { assert s[m + 1] != s[i]; }
      }
      forall x | x in s && x != k ensures x in r {
        var m :| 0 <= m < |s| && s[m] == x;
        if m < i { assert r[m] == x; } else { assert m != i && r[m - 1] == x; }
      }
    }
  }

  /** Pressing an absent key and then releasing it restores the list. */
  lemma ReleaseUndoesPress(s: seq<Key>, k: Key)
    requires k !in s
    ensures AfterRelease(AfterPress(s, k), k) == s
  {
    var t := s + [k];
    FirstIndexUnique(t, k, |s|);
    assert t[..|s|] == s;
  }

  /** On a list without duplicates a second release of the same key changes nothing. */
  lemma ReleaseIdempotent(s: seq<Key>, k: Key)
    requires NoDuplicates(s)
    ensures AfterRelease(AfterRelease(s, k), k) == AfterRelease(s, k)
  {
    ReleaseKeepsNoDuplicates(s, k);
  }
}
