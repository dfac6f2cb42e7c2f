/** The parcel directory: a 1009-bucket hash table with separate chaining,
    keyed by tracking id through the djb2 string hash. A bucket is the
    sequence of entries chained in it, oldest first; a stored parcel reference
    is an `Entry` pairing the parcel's (immutable) id with its reference. */
module Directory {
  import opened Parcels

  const TableSize := 1009
  /** Width of `unsigned long`: djb2 wraps modulo 2^64. */
  const Word := 0x1_0000_0000_0000_0000

  datatype Entry = Entry(id: string, ref: nat)

  /** djb2 over the characters of `s` (`hash * 33 + c`, starting at 5381),
      wrapping like a 64-bit unsigned integer. */
  function Djb2(s: string): (h: nat)
    ensures h < Word
  {
    if s == [] then 5381
    else (Djb2(s[..|s| - 1]) * 33 + s[|s| - 1] as int) % Word
  }

  /** The bucket a key hashes to. */
  function Bucket(key: string): (b: nat)
    ensures b < TableSize
  {
    Djb2(key) % TableSize
  }

  /** The entries of `es` that hash to bucket `b`, in insertion order. */
  function InBucket(es: seq<Entry>, b: nat): (r: seq<Entry>)
    ensures forall e :: e in r ==> e in es && Bucket(e.id) == b
  {
    if es == [] then []
    else (if Bucket(es[0].id) == b then [es[0]] else []) + InBucket(es[1..], b)
  }

  lemma {:induction false} InBucketAppend(es: seq<Entry>, e: Entry, b: nat)
    ensures InBucket(es + [e], b) == InBucket(es, b) + (if Bucket(e.id) == b then [e] else [])
  {
    if es != [] {
      assert (es + [e])[1..] == es[1..] + [e];
      InBucketAppend(es[1..], e, b);
    }
  }

  /** The reference of the first entry of `es` whose id is `id`. */
  function FirstRef(es: seq<Entry>, id: string): (r: Option<nat>)
  {
    if es == [] then None
    else if es[0].id == id then Some(es[0].ref)
    else FirstRef(es[1..], id)
  }

  /** `FirstRef` finds an entry carrying `id` exactly when one exists, and
      it is the earliest such entry. */
  lemma {:induction false} FirstRefSpec(es: seq<Entry>, id: string)
    ensures FirstRef(es, id).Some? <==> exists e :: e in es && e.id == id
    ensures FirstRef(es, id).Some? ==>
      exists k :: 0 <= k < |es| && es[k] == Entry(id, FirstRef(es, id).value) &&
        forall j :: 0 <= j < k ==> es[j].id != id
  {
    if es != [] {
      FirstRefSpec(es[1..], id);
      if es[0].id != id {
        if FirstRef(es, id).Some? {
          var k :| 0 <= k < |es[1..]| && es[1..][k] == Entry(id, FirstRef(es, id).value) &&
            forall j :: 0 <= j < k ==> es[1..][j].id != id;
          assert es[k + 1] == Entry(id, FirstRef(es, id).value);
        }
        assert (exists e :: e in es && e.id == id) ==> exists e :: e in es[1..] && e.id == id by {
          if e :| e in es && e.id == id {
            assert e != es[0];
            assert e in es[1..];
          }
        }
      } else {
        assert es[0] in es;
      }
    }
  }

  /** Looking in the key's own bucket finds the same entry as looking
      through every entry: entries with the same id share a bucket. */
  lemma {:induction false} FirstRefInOwnBucket(es: seq<Entry>, id: string)
    ensures FirstRef(InBucket(es, Bucket(id)), id) == FirstRef(es, id)
  {
    if es != [] {
      FirstRefInOwnBucket(es[1..], id);
      var b := Bucket(id);
      if Bucket(es[0].id) == b {
        assert InBucket(es, b) == [es[0]] + InBucket(es[1..], b);
        assert ([es[0]] + InBucket(es[1..], b))[1..] == InBucket(es[1..], b);
      } else {
        assert es[0].id != id;
        assert InBucket(es, b) == InBucket(es[1..], b);
      }
    }
  }

  class ParcelHashTable {
    /** One chain per bucket. */
    var table: array<seq<Entry>>
    /** Every entry ever inserted, in insertion order. */
    ghost var entries: seq<Entry>

    ghost predicate Valid()
      reads this, table
    {
      && table.Length == TableSize
      && forall b :: 0 <= b < TableSize ==> table[b] == InBucket(entries, b)
    }

    constructor ()
      ensures Valid() && entries == [] && fresh(table)
    {
      table := new seq<Entry>[TableSize](_ => []);
      entries := [];
    }

    /** djb2 computed by the source's loop, reduced to a bucket index. */
    static method Hash(key: string) returns (idx: nat)
      ensures idx == Bucket(key)
      ensures idx < TableSize
    {
      var hash := 5381;
      var i := 0;
      while i < |key|
        invariant 0 <= i <= |key|
        invariant hash == Djb2(key[..i])
      {
        assert key[..i + 1][..i] == key[..i];
        hash := (hash * 33 + key[i] as int) % Word;
        i := i + 1;
      }
      assert key[..i] == key;
      idx := hash % TableSize;
    }

    /** Chains `e` at the tail of its bucket. */
    method Insert(e: Entry)
      requires Valid()
      modifies table, this
      ensures Valid() && table == old(table)
      ensures entries == old(entries) + [e]
    {
      var idx := Hash(e.id);
      table[idx] := table[idx] + [e];
      entries := entries + [e];
      forall b | 0 <= b < TableSize
        ensures table[b] == InBucket(entries, b)
      {
        InBucketAppend(old(entries), e, b);
      }
    }

    /** Walks the key's chain and returns the first entry with that id. */
    method Search(id: string) returns (r: Option<nat>)
      requires Valid()
      ensures r == FirstRef(entries, id)
    {
      var idx := Hash(id);
      var chain := table[idx];
      FirstRefInOwnBucket(entries, id);
      var k := 0;
      while k < |chain|
        invariant 0 <= k <= |chain|
        invariant FirstRef(chain[k..], id) == FirstRef(entries, id)
      {
        if chain[k].id == id {
          return Some(chain[k].ref);
        }
        assert chain[k..][1..] == chain[k + 1..];
        k := k + 1;
      }
      r := None;
    }
  }

  /** After inserting `e`, searching for its id finds an entry with that id,
      and the entry found is `e` itself when no earlier entry had that id. */
  lemma {:induction false} SearchAfterInsert(es: seq<Entry>, e: Entry)
    ensures FirstRef(es + [e], e.id).Some?
    ensures (forall x :: x in es ==> x.id != e.id) ==> FirstRef(es + [e], e.id) == Some(e.ref)
  {
    if es != [] {
      assert (es + [e])[1..] == es[1..] + [e];
      SearchAfterInsert(es[1..], e);
    }
  }

  /** A search result always names an entry with the searched id, and a
      search for an id nobody inserted finds nothing. */
  lemma SearchNeverMismatches(es: seq<Entry>, id: string)
    ensures FirstRef(es, id).Some? ==> Entry(id, FirstRef(es, id).value) in es
    ensures (forall x :: x in es ==> x.id != id) ==> FirstRef(es, id) == None
  {
    FirstRefSpec(es, id);
  }
}
