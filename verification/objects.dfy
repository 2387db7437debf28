/** The parts of JavaScript object semantics the client relies on: how
    object spread assigns entries, and the order in which `Object.entries`
    lists them (section 10.1.11.1 of ECMAScript, OrdinaryOwnPropertyKeys).

    An object is kept as its entries in insertion order. `OwnKeys` gives the
    enumeration order: array-index keys first, in ascending numeric order,
    then every other key in insertion order. */
module Objects {
  import opened Wrappers
  import opened Types
  import Seqs

  // ---------------------------------------------------------------------
  // Keys

  /** No two entries share a key, as in any JavaScript object. */
  predicate KeysUnique(ctx: Context) {
    forall i, j :: 0 <= i < j < |ctx| ==> ctx[i].Key() != ctx[j].Key()
  }

  /** Position of the entry with key `k`, if any. */
  function KeyIndex(ctx: Context, k: string): (r: Option<nat>)
    ensures r.Some? ==> r.value < |ctx| && ctx[r.value].Key() == k
    ensures r.None? <==> forall j :: 0 <= j < |ctx| ==> ctx[j].Key() != k
  {
    Seqs.FirstIndex(ctx, (g: Field) => g.Key() == k)
  }

  // ---------------------------------------------------------------------
  // Spread, in insertion order

  /** Object-spread assignment of one entry: an existing key keeps its
      insertion position and takes the new value; a new key is inserted
      last. */
  function Assign(target: Context, f: Field): (r: Context)
    ensures |r| == |target| || r == target + [f]
    ensures forall i :: 0 <= i < |target| ==> r[i].Key() == target[i].Key()
    ensures f in r
    ensures forall y :: y in target && y.Key() != f.Key() ==> y in r
    ensures forall y :: y in r ==> y in target || y == f
  {
    match KeyIndex(target, f.Key())
    case None => target + [f]
    case Some(i) => target[i := f]
  }

  /** No entry of `src` after position `j` has the key of `src[j]`. */
  predicate LastWithKey(src: Context, j: nat)
    requires j < |src|
  {
    forall k :: j < k < |src| ==> src[k].Key() != src[j].Key()
  }

  /** `{...target, ...src}`: the entries of `src` assigned in order. Target
      keys stay at their insertion positions; every key of `src` ends up
      holding the value of the last `src` entry with that key; nothing else
      enters the result. */
  function Spread(target: Context, src: Context): (r: Context)
    ensures |r| >= |target|
    ensures forall i :: 0 <= i < |target| ==> r[i].Key() == target[i].Key()
    ensures forall j :: 0 <= j < |src| && LastWithKey(src, j) ==> src[j] in r
    ensures forall y :: y in r ==> y in target || y in src
    decreases |src|
  {
    if src == [] then target
    else
      var n := |src| - 1;
      var rest := Spread(target, src[..n]);
      AssignStep(target, src, src[..n], rest);
      Assign(rest, src[n])
  }

  /** The step of `Spread`: assigning the last entry of `src` after the
      others, `init`, have been spread into `rest`. */
  lemma AssignStep(target: Context, src: Context, init: Context, rest: Context)
    requires src != [] && init == src[..|src| - 1]
    requires forall j :: 0 <= j < |init| && LastWithKey(init, j) ==> init[j] in rest
    requires forall y :: y in rest ==> y in target || y in init
    ensures forall j :: 0 <= j < |src| && LastWithKey(src, j) ==> src[j] in Assign(rest, src[|src| - 1])
    ensures forall y :: y in Assign(rest, src[|src| - 1]) ==> y in target || y in src
  {
    var f := src[|src| - 1];
    assert src == init + [f];
    var r := Assign(rest, f);
    forall j | 0 <= j < |src| && LastWithKey(src, j)
      ensures src[j] in r
    {
      if j < |init| {
        KeptByAssign(init, f, j, rest);
      }
    }
  }

  /** An entry of `init` that stays last with its key once `f` follows
      survives the assignment of `f`. */
  lemma KeptByAssign(init: Context, f: Field, j: nat, rest: Context)
    requires j < |init| && LastWithKey(init + [f], j)
    requires forall i :: 0 <= i < |init| && LastWithKey(init, i) ==> init[i] in rest
    ensures init[j] in Assign(rest, f)
  {
    var src := init + [f];
    assert src[j] == init[j] && src[|init|] == f;
    assert init[j].Key() != f.Key();
    assert LastWithKey(init, j) by {
      forall k | j < k < |init|
        ensures init[k].Key() != init[j].Key()
      {
        assert src[k] == init[k];
      }
    }
  }

  /** Dropping the last entry of an object keeps its keys distinct. */
  lemma KeysUniqueInit(s: Context)
    requires KeysUnique(s) && s != []
    ensures KeysUnique(s[..|s| - 1])
  {
  }

  /** In an object with distinct keys, assigning the last entry to the
      others appends it. */
  lemma AssignLast(s: Context)
    requires KeysUnique(s) && s != []
    ensures Assign(s[..|s| - 1], s[|s| - 1]) == s
  {
  }

  /** Spreading entries whose keys are new and distinct inserts them in
      order after the existing ones. */
  lemma {:induction false} SpreadDisjoint(target: Context, src: Context)
    requires KeysUnique(target + src)
    ensures Spread(target, src) == target + src
    decreases |src|
  {
    if src != [] {
      var n := |src| - 1;
      var all := target + src;
      assert all[..|all| - 1] == target + src[..n];
      assert all[|all| - 1] == src[n];
      KeysUniqueInit(all);
      SpreadDisjoint(target, src[..n]);
      AssignLast(all);
    }
  }

  /** Assigning into an object keeps its keys distinct. */
  lemma AssignKeysUnique(target: Context, f: Field)
    requires KeysUnique(target)
    ensures KeysUnique(Assign(target, f))
  {
  }

  /** Spread never produces two entries with the same key. */
  lemma {:induction false} SpreadKeysUnique(target: Context, src: Context)
    requires KeysUnique(target)
    ensures KeysUnique(Spread(target, src))
    decreases |src|
  {
    if src != [] {
      SpreadKeysUnique(target, src[..|src| - 1]);
      AssignKeysUnique(Spread(target, src[..|src| - 1]), src[|src| - 1]);
    }
  }

  // ---------------------------------------------------------------------
  // Enumeration order

  predicate IsDigit(c: char) {
    '0' <= c <= '9'
  }

  /** Every character of `k` is a decimal digit. */
  predicate AllDigits(k: string)
    decreases |k|
  {
    k == [] || (AllDigits(k[..|k| - 1]) && IsDigit(k[|k| - 1]))
  }

  /** The value of a string of decimal digits. */
  function DecimalValue(k: string): nat
    requires AllDigits(k)
    decreases |k|
  {
    if k == [] then 0
    else DecimalValue(k[..|k| - 1]) * 10 + (k[|k| - 1] as int - '0' as int)
  }

  /** An array index (section 6.1.7 of ECMAScript): the canonical decimal
      form of an integer below 2^32 - 1, so no sign and no leading zero. */
  predicate IsArrayIndex(k: string) {
    && |k| > 0
    && IsDigit(k[0])
    && AllDigits(k)
    && (k[0] != '0' || |k| == 1)
    && DecimalValue(k) < 0xFFFF_FFFF
  }

  /** The entry's key is an array index. */
  predicate IsIndexEntry(f: Field) {
    IsArrayIndex(f.Key())
  }

  /** The entry's key is any other string. */
  predicate IsNamedEntry(f: Field) {
    !IsArrayIndex(f.Key())
  }

  /** The numeric value of an array-index key; other keys rank 0. */
  function Rank(f: Field): int {
    if IsIndexEntry(f) then DecimalValue(f.Key()) else 0
  }

  /** The entries with array-index keys, in ascending numeric order. */
  function IndexEntries(obj: Context): Context {
    Seqs.SortByKey(Seqs.Filter(obj, IsIndexEntry), Rank)
  }

  /** The entries with any other key, in insertion order. */
  function NamedEntries(obj: Context): Context {
    Seqs.Filter(obj, IsNamedEntry)
  }

  /** The order in which `Object.entries`, `for…in` and object spread list
      an object's entries. */
  function OwnKeys(obj: Context): Context {
    Seqs.SortedPartition(obj, IsIndexEntry, IsNamedEntry, Rank)
  }

  /** `Object.entries` lists the same entries as the object holds; every
      array-index key comes before every other key, the array-index keys in
      ascending numeric order; the other keys keep their insertion order. */
  lemma OwnKeysOrder(obj: Context)
    ensures multiset(OwnKeys(obj)) == multiset(obj)
    ensures forall i, j :: 0 <= i < j < |OwnKeys(obj)| && IsIndexEntry(OwnKeys(obj)[j]) ==>
      IsIndexEntry(OwnKeys(obj)[i]) && Rank(OwnKeys(obj)[i]) <= Rank(OwnKeys(obj)[j])
    ensures Seqs.Filter(OwnKeys(obj), IsNamedEntry) == Seqs.Filter(obj, IsNamedEntry)
  {
    Seqs.SortedPartitionPermutes(obj, IsIndexEntry, IsNamedEntry, Rank);
    Seqs.SortedPartitionOrder(obj, IsIndexEntry, IsNamedEntry, Rank);
    Seqs.SortedPartitionKeepsOthers(obj, IsIndexEntry, IsNamedEntry, Rank);
  }

  /** An object none of whose keys is an array index is listed in
      insertion order. */
  lemma OwnKeysWithoutIndices(obj: Context)
    requires forall i :: 0 <= i < |obj| ==> IsNamedEntry(obj[i])
    ensures IndexEntries(obj) == [] && NamedEntries(obj) == obj
    ensures OwnKeys(obj) == obj
  {
    assert forall i :: 0 <= i < |obj| ==> !IsIndexEntry(obj[i]);
    Seqs.FilterNone(obj, IsIndexEntry);
    Seqs.FilterAll(obj, IsNamedEntry);
  }

  /** A key that starts with a non-digit is not an array index. */
  lemma NotArrayIndex(k: string)
    requires |k| > 0 && !IsDigit(k[0])
    ensures !IsArrayIndex(k)
  {
  }

  /** Inserting an entry with a non-index key before an object's entries
      puts it, in the enumeration, between the array-index entries and the
      other ones. */
  lemma OwnKeysPrepend(f: Field, obj: Context)
    requires IsNamedEntry(f)
    ensures OwnKeys([f] + obj) == IndexEntries(obj) + [f] + NamedEntries(obj)
  {
    var idx := Seqs.Filter([f] + obj, IsIndexEntry);
    var named := Seqs.Filter([f] + obj, IsNamedEntry);
    assert !IsIndexEntry(f);
    Seqs.FilterSingleton(f, IsIndexEntry);
    Seqs.FilterSingleton(f, IsNamedEntry);
    Seqs.FilterAppend([f], obj, IsIndexEntry);
    Seqs.FilterAppend([f], obj, IsNamedEntry);
    assert idx == Seqs.Filter(obj, IsIndexEntry);
    assert named == [f] + NamedEntries(obj);
    assert OwnKeys([f] + obj) == Seqs.SortByKey(idx, Rank) + named;
  }

  /** Inserting a non-index entry before an object without array-index
      keys: the enumeration is the insertion order. */
  lemma OwnKeysPrependNamed(f: Field, obj: Context)
    requires IsNamedEntry(f)
    requires forall i :: 0 <= i < |obj| ==> IsNamedEntry(obj[i])
    ensures OwnKeys([f] + obj) == [f] + obj
  {
    assert IndexEntries(obj) == [] && NamedEntries(obj) == obj by {
      OwnKeysWithoutIndices(obj);
    }
    assert OwnKeys([f] + obj) == IndexEntries(obj) + [f] + NamedEntries(obj) by {
      OwnKeysPrepend(f, obj);
    }
    assert [] + [f] + obj == [f] + obj;
  }
}
