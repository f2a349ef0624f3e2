/** The hash-chained log in memory. */
module AuditLog {
  /** `T` is the logged data; the hash of an entry is taken over data, time and
      the previous hash. */
  datatype Entry<T> = Entry(data: T, timestamp: string, prevHash: string, entryHash: string)

  type EntryHash<!T> = (T, string, string) -> string

  /** The hash is injective and never empty. */
  ghost predicate GoodHash<T(!new)>(hash: EntryHash<T>) {
    && (forall d, t, p :: hash(d, t, p) != "")
    && forall d, t, p, d', t', p' :: hash(d, t, p) == hash(d', t', p') ==> d == d' && t == t' && p == p'
  }

  function HashBefore<T>(entries: seq<Entry<T>>, i: nat): string
    requires i <= |entries|
  {
    if i == 0 then "" else entries[i - 1].entryHash
  }

  /** Every entry names its predecessor's hash and carries its own. */
  ghost predicate Chained<T>(entries: seq<Entry<T>>, hash: EntryHash<T>) {
    forall i :: 0 <= i < |entries| ==> Linked(entries, i, hash)
  }

  predicate Linked<T>(entries: seq<Entry<T>>, i: nat, hash: EntryHash<T>)
    requires i < |entries|
  {
    && entries[i].prevHash == HashBefore(entries, i)
    && entries[i].entryHash == hash(entries[i].data, entries[i].timestamp, entries[i].prevHash)
  }

  class TamperEvidentLog<T> {
    var entries: seq<Entry<T>>
    const hash: EntryHash<T>

    constructor (hash: EntryHash<T>)
      ensures entries == [] && this.hash == hash && Chained(entries, hash)
    {
      entries, this.hash := [], hash;
    }

    /** Appending keeps the chain, whatever is appended. */
    method Append(data: T, timestamp: string) returns (entryHash: string)
      modifies this
      ensures |entries| == |old(entries)| + 1 && old(entries) <= entries
      ensures entries[|old(entries)|] == Entry(data, timestamp, HashBefore(old(entries), |old(entries)|), entryHash)
      ensures old(Chained(entries, hash)) ==> Chained(entries, hash)
    {
      var prevHash := if entries == [] then "" else entries[|entries| - 1].entryHash;
      entryHash := hash(data, timestamp, prevHash);
      ghost var before := entries;
      entries := entries + [Entry(data, timestamp, prevHash, entryHash)];
      assert forall i :: 0 <= i < |before| ==> Linked(entries, i, hash) == Linked(before, i, hash);
    }

    /** The verification loop accepts exactly the chained logs. */
    method Verify() returns (ok: bool)
      ensures ok <==> Chained(entries, hash)
    {
      var prevHash := "";
      for i := 0 to |entries|
        invariant prevHash == HashBefore(entries, i)
        invariant forall k :: 0 <= k < i ==> Linked(entries, k, hash)
      {
        var entry := entries[i];
        assert Linked(entries, i, hash) <==>
               entry.prevHash == prevHash && hash(entry.data, entry.timestamp, entry.prevHash) == entry.entryHash;
        if entry.prevHash != prevHash {
          return false;
        }
        if hash(entry.data, entry.timestamp, entry.prevHash) != entry.entryHash {
          return false;
        }
        prevHash := entry.entryHash;
      }
      ok := true;
    }
  }

  /** Two logs that verify and end in the same hash are equal, also in length: the
      last hash commits to the whole log. */
  lemma {:induction false} SameHeadSameLog<T(!new)>(a: seq<Entry<T>>, b: seq<Entry<T>>, hash: EntryHash<T>)
    requires GoodHash(hash) && Chained(a, hash) && Chained(b, hash)
    requires HashBefore(a, |a|) == HashBefore(b, |b|)
    ensures a == b
    decreases |a|
  {
    if a == [] || b == [] {
      HeadIsEmptyIff(a, hash);
      HeadIsEmptyIff(b, hash);
    } else {
      var x, y := a[|a| - 1], b[|b| - 1];
      assert Linked(a, |a| - 1, hash) && Linked(b, |b| - 1, hash);
      SameHashSameEntry(x, y, hash);
      var a', b' := a[..|a| - 1], b[..|b| - 1];
      assert HashBefore(a', |a'|) == x.prevHash && HashBefore(b', |b'|) == y.prevHash;
      ChainedFront(a, hash);
      ChainedFront(b, hash);
      SameHeadSameLog(a', b', hash);
      assert a == a' + [x] && b == b' + [y];
    }
  }

  lemma SameHashSameEntry<T(!new)>(x: Entry<T>, y: Entry<T>, hash: EntryHash<T>)
    requires GoodHash(hash) && x.entryHash == y.entryHash
    requires x.entryHash == hash(x.data, x.timestamp, x.prevHash)
    requires y.entryHash == hash(y.data, y.timestamp, y.prevHash)
    ensures x == y
  {
  }

  lemma ChainedFront<T>(a: seq<Entry<T>>, hash: EntryHash<T>)
    requires Chained(a, hash) && a != []
    ensures Chained(a[..|a| - 1], hash)
  {
    var a' := a[..|a| - 1];
    forall i | 0 <= i < |a'|
      ensures Linked(a', i, hash)
    {
      assert Linked(a, i, hash) && HashBefore(a', i) == HashBefore(a, i);
    }
  }

  lemma HeadIsEmptyIff<T(!new)>(a: seq<Entry<T>>, hash: EntryHash<T>)
    requires GoodHash(hash) && Chained(a, hash)
    ensures HashBefore(a, |a|) == "" <==> a == []
  {
    if a != [] {
      assert Linked(a, |a| - 1, hash);
    }
  }
}
