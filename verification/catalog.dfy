/** The equity map of the reader: a `std::map<std::string, ...>` keyed by
    symbol (metastockdb.h). A `std::map` keeps its keys in ascending order
    and iterates in that order; here it is a sequence of entries with
    strictly ascending keys, and `AsMap` gives the mapping it stands for. */
module Catalogs {
  import opened Outcomes

  /** `std::string`'s `operator<`: lexicographic order on character codes,
      a proper prefix coming first. The characters of a symbol come from
      file bytes, so their codes are the unsigned byte values that
      `char_traits<char>` compares. */
  predicate StrLess(a: string, b: string) {
    if |a| == 0 then |b| > 0
    else if |b| == 0 then false
    else if a[0] == b[0] then StrLess(a[1..], b[1..])
    else a[0] < b[0]
  }

  lemma {:induction false} StrLessIrreflexive(a: string)
    ensures !StrLess(a, a)
  {
    if |a| > 0 {
      StrLessIrreflexive(a[1..]);
    }
  }

  lemma {:induction false} StrLessTransitive(a: string, b: string, c: string)
    requires StrLess(a, b) && StrLess(b, c)
    ensures StrLess(a, c)
  {
    if |a| > 0 && |b| > 0 && |c| > 0 && a[0] == b[0] && b[0] == c[0] {
      StrLessTransitive(a[1..], b[1..], c[1..]);
    }
  }

  /** Any two different strings are ordered one way, and not both ways. */
  lemma {:induction false} StrLessTotal(a: string, b: string)
    ensures a != b <==> StrLess(a, b) || StrLess(b, a)
    ensures !(StrLess(a, b) && StrLess(b, a))
  {
    if |a| > 0 && |b| > 0 && a[0] == b[0] {
      StrLessTotal(a[1..], b[1..]);
      assert a == [a[0]] + a[1..] && b == [b[0]] + b[1..];
    } else if |a| == 0 && |b| == 0 {
      assert a == b;
    }
  }

  datatype Entry<V> = Entry(key: string, value: V)

  type Catalog<V> = seq<Entry<V>>

  /** Keys strictly ascending, hence pairwise distinct. */
  ghost predicate KeysSorted<V>(c: Catalog<V>) {
    forall i, j :: 0 <= i < j < |c| ==> StrLess(c[i].key, c[j].key)
  }

  /** The mapping a catalog stands for. An earlier entry wins over a later
      one with the same key, which a sorted catalog never has. */
  function AsMap<V>(c: Catalog<V>): (m: map<string, V>)
    ensures m.Keys == set i | 0 <= i < |c| :: c[i].key
  {
    if |c| == 0 then map[]
    else AsMap(c[1..])[c[0].key := c[0].value]
  }

  /** `std::map::find`: the value stored under `key`, if any. */
  function Lookup<V>(c: Catalog<V>, key: string): (r: Option<V>)
    ensures r.Some? <==> key in AsMap(c)
    ensures r.Some? ==> r.value == AsMap(c)[key]
  {
    if |c| == 0 then None
    else if c[0].key == key then Some(c[0].value)
    else Lookup(c[1..], key)
  }

  /** The position of `key`, if present. */
  function IndexOf<V>(c: Catalog<V>, key: string): (r: Option<nat>)
    ensures r.Some? <==> key in AsMap(c)
    ensures r.Some? ==> r.value < |c| && c[r.value].key == key && c[r.value].value == AsMap(c)[key]
  {
    if |c| == 0 then None
    else if c[0].key == key then Some(0)
    else
      match IndexOf(c[1..], key)
      case None => None
      case Some(i) => Some(i + 1)
  }

  /** `std::map::insert`: adds the entry at its place in key order, and
      does nothing when the key is already present. */
  function Insert<V>(c: Catalog<V>, key: string, value: V): (r: Catalog<V>)
    ensures |r| == |c| || |r| == |c| + 1
  {
    if |c| == 0 then [Entry(key, value)]
    else if c[0].key == key then c
    else if StrLess(key, c[0].key) then [Entry(key, value)] + c
    else [c[0]] + Insert(c[1..], key, value)
  }

  /** The first entry of a sorted catalog comes before every later key. */
  lemma HeadBeforeKeys<V>(c: Catalog<V>, k: string)
    requires KeysSorted(c) && |c| > 0 && k in AsMap(c[1..])
    ensures StrLess(c[0].key, k)
  {
    var m :| 0 <= m < |c[1..]| && c[1..][m].key == k;
    assert c[m + 1].key == k;
  }

  lemma {:induction false} InsertKeys<V>(c: Catalog<V>, key: string, value: V)
    requires KeysSorted(c)
    ensures KeysSorted(Insert(c, key, value))
    ensures forall i :: 0 <= i < |Insert(c, key, value)| ==>
      Insert(c, key, value)[i].key == key || Insert(c, key, value)[i].key in AsMap(c)
  {
    if |c| > 0 && c[0].key != key && !StrLess(key, c[0].key) {
      var tail := Insert(c[1..], key, value);
      assert KeysSorted(c[1..]);
      assert KeysSorted(tail) && forall i :: 0 <= i < |tail| ==> tail[i].key == key || tail[i].key in AsMap(c[1..]) by {
        InsertKeys(c[1..], key, value);
      }
      assert StrLess(c[0].key, key) by {
        StrLessTotal(key, c[0].key);
      }
      var r := Insert(c, key, value);
      assert r == [c[0]] + tail;
      forall j | 0 < j < |r|
        ensures StrLess(r[0].key, r[j].key)
      {
        assert r[j] == tail[j - 1];
        if r[j].key != key {
          HeadBeforeKeys(c, r[j].key);
        }
      }
      forall i | 0 <= i < |r|
        ensures r[i].key == key || r[i].key in AsMap(c)
      {
        if i > 0 {
          assert r[i] == tail[i - 1];
        }
      }
    } else if |c| > 0 && StrLess(key, c[0].key) {
      var r := Insert(c, key, value);
      forall i, j | 0 <= i < j < |r|
        ensures StrLess(r[i].key, r[j].key)
      {
        if i == 0 && j > 1 {
          StrLessTransitive(key, c[0].key, c[j - 1].key);
        }
      }
    }
  }

  /** Inserting into a sorted catalog keeps it sorted and acts on the
      mapping as insert-if-absent: an existing entry is never replaced. */
  lemma InsertIfAbsent<V>(c: Catalog<V>, key: string, value: V)
    requires KeysSorted(c)
    ensures KeysSorted(Insert(c, key, value))
    ensures AsMap(Insert(c, key, value)) == if key in AsMap(c) then AsMap(c) else AsMap(c)[key := value]
  {
    InsertKeys(c, key, value);
    InsertAsMap(c, key, value);
  }

  lemma {:induction false} InsertAsMap<V>(c: Catalog<V>, key: string, value: V)
    requires KeysSorted(c)
    ensures AsMap(Insert(c, key, value)) == if key in AsMap(c) then AsMap(c) else AsMap(c)[key := value]
  {
    if |c| > 0 && c[0].key != key && !StrLess(key, c[0].key) {
      InsertAsMap(c[1..], key, value);
      assert Insert(c, key, value)[1..] == Insert(c[1..], key, value);
    } else if |c| > 0 && StrLess(key, c[0].key) {
      StrLessIrreflexive(key);
      assert Insert(c, key, value)[1..] == c;
      forall j | 0 <= j < |c|
        ensures c[j].key != key
      {
        if j > 0 {
          StrLessTransitive(key, c[0].key, c[j].key);
          StrLessIrreflexive(key);
        }
      }
    }
  }

  /** Replaces the value at position `i`, keeping its key. */
  function UpdateAt<V>(c: Catalog<V>, i: nat, value: V): (r: Catalog<V>)
    requires i < |c|
    ensures |r| == |c| && r[i] == Entry(c[i].key, value)
    ensures forall j :: 0 <= j < |c| && j != i ==> r[j] == c[j]
  {
    c[i := Entry(c[i].key, value)]
  }

  /** The keys of a sorted catalog are pairwise distinct. */
  lemma SortedKeysDistinct<V>(c: Catalog<V>, i: nat, j: nat)
    requires KeysSorted(c) && i < |c| && j < |c| && i != j
    ensures c[i].key != c[j].key
  {
    if i < j {
      StrLessIrreflexive(c[i].key);
    } else {
      StrLessIrreflexive(c[j].key);
    }
  }

  /** In a sorted catalog the mapping holds every entry's own value. */
  lemma {:induction false} SortedAsMap<V>(c: Catalog<V>, i: nat)
    requires KeysSorted(c) && i < |c|
    ensures AsMap(c)[c[i].key] == c[i].value
  {
    if i > 0 {
      SortedAsMap(c[1..], i - 1);
      SortedKeysDistinct(c, 0, i);
    }
  }

  /** Replacing the value at a position of a sorted catalog replaces the
      value under that position's key and nothing else. */
  lemma UpdateAtSorted<V>(c: Catalog<V>, i: nat, value: V)
    requires KeysSorted(c) && i < |c|
    ensures KeysSorted(UpdateAt(c, i, value))
  {
    var r := UpdateAt(c, i, value);
    assert forall j :: 0 <= j < |r| ==> r[j].key == c[j].key;
  }

  lemma UpdatesCommute<V>(m: map<string, V>, k1: string, v1: V, k2: string, v2: V)
    requires k1 != k2
    ensures m[k1 := v1][k2 := v2] == m[k2 := v2][k1 := v1]
  {
  }

  lemma {:induction false} UpdateAtAsMap<V>(c: Catalog<V>, i: nat, value: V)
    requires KeysSorted(c) && i < |c|
    ensures KeysSorted(UpdateAt(c, i, value))
    ensures AsMap(UpdateAt(c, i, value)) == AsMap(c)[c[i].key := value]
  {
    UpdateAtSorted(c, i, value);
    var r := UpdateAt(c, i, value);
    if i == 0 {
      assert r[1..] == c[1..];
    } else {
      assert r[1..] == UpdateAt(c[1..], i - 1, value);
      UpdateAtAsMap(c[1..], i - 1, value);
      SortedKeysDistinct(c, 0, i);
      UpdatesCommute(AsMap(c[1..]), c[i].key, value, c[0].key, c[0].value);
    }
  }

  // ---------------------------------------------------------------------------
  // The insert loop of the index readers

  /** Reads entries `r`, `r + 1`, ..., `last` in order and inserts each,
      stopping at the first read that fails, with its error. The entries
      inserted before the failure stay in the catalog. */
  function InsertEach<V, E>(read: nat -> Result<Entry<V>, E>, r: nat, last: nat, c: Catalog<V>): (res: (Check<E>, Catalog<V>))
    decreases if r <= last then last + 1 - r else 0
  {
    if r > last then (Pass, c)
    else
      match read(r)
      case Err(e) => (Fail(e), c)
      case Ok(entry) => InsertEach(read, r + 1, last, Insert(c, entry.key, entry.value))
  }

  /** The loop passes exactly when every read in the range succeeds, and
      otherwise fails with the error of the first read that fails. */
  lemma {:induction false} InsertEachOutcome<V, E>(read: nat -> Result<Entry<V>, E>, r: nat, last: nat, c: Catalog<V>)
    ensures InsertEach(read, r, last, c).0.Pass? <==> forall i :: r <= i <= last ==> read(i).Ok?
    ensures InsertEach(read, r, last, c).0.Fail? ==>
      exists i :: (&& r <= i <= last && read(i) == Err(InsertEach(read, r, last, c).0.error)
                   && forall j :: r <= j < i ==> read(j).Ok?)
    decreases if r <= last then last + 1 - r else 0
  {
    if r <= last && read(r).Ok? {
      var entry := read(r).value;
      InsertEachOutcome(read, r + 1, last, Insert(c, entry.key, entry.value));
    }
  }

  /** `m'` holds every key of `m` with the same value. */
  ghost predicate Extends<V>(m: map<string, V>, m': map<string, V>) {
    forall k :: k in m ==> k in m' && m'[k] == m[k]
  }

  lemma ExtendsTransitive<V>(m1: map<string, V>, m2: map<string, V>, m3: map<string, V>)
    requires Extends(m1, m2) && Extends(m2, m3)
    ensures Extends(m1, m3)
  {
  }

  /** One insert into a sorted catalog: sorted again, nothing replaced, and
      the key present, with the new value when it was absent. */
  lemma InsertExtends<V>(c: Catalog<V>, key: string, value: V)
    requires KeysSorted(c)
    ensures KeysSorted(Insert(c, key, value))
    ensures Extends(AsMap(c), AsMap(Insert(c, key, value)))
    ensures key in AsMap(Insert(c, key, value))
    ensures key !in AsMap(c) ==> AsMap(Insert(c, key, value))[key] == value
  {
    InsertIfAbsent(c, key, value);
  }

  /** The loop keeps the catalog sorted and never replaces an entry that
      was there before it. */
  lemma {:induction false} InsertEachKeeps<V, E>(read: nat -> Result<Entry<V>, E>, r: nat, last: nat, c: Catalog<V>)
    requires KeysSorted(c)
    ensures KeysSorted(InsertEach(read, r, last, c).1)
    ensures Extends(AsMap(c), AsMap(InsertEach(read, r, last, c).1))
    decreases if r <= last then last + 1 - r else 0
  {
    if r <= last && read(r).Ok? {
      var entry := read(r).value;
      var c' := Insert(c, entry.key, entry.value);
      InsertExtends(c, entry.key, entry.value);
      InsertEachKeeps(read, r + 1, last, c');
      var res := InsertEach(read, r + 1, last, c').1;
      assert InsertEach(read, r, last, c).1 == res;
      ExtendsTransitive(AsMap(c), AsMap(c'), AsMap(res));
    }
  }

  /** Every read from `r` to `i` succeeds. */
  ghost predicate ReadsThrough<V, E>(read: nat -> Result<Entry<V>, E>, r: nat, i: nat) {
    forall j :: r <= j <= i ==> read(j).Ok?
  }

  /** Every read from `r` up to, but not including, `i` succeeds with a key
      other than `k`. */
  ghost predicate NoEarlierKey<V, E>(read: nat -> Result<Entry<V>, E>, r: nat, i: nat, k: string) {
    forall j :: r <= j < i ==> read(j).Ok? && read(j).value.key != k
  }

  /** Every entry the loop adds is the first entry read under its key: a
      later entry with the same key is dropped. */
  lemma {:induction false} InsertEachAddsFirst<V, E>(read: nat -> Result<Entry<V>, E>, r: nat, last: nat, c: Catalog<V>, k: string)
    requires KeysSorted(c)
    requires k in AsMap(InsertEach(read, r, last, c).1) && k !in AsMap(c)
    ensures exists i :: (&& r <= i <= last && read(i) == Ok(Entry(k, AsMap(InsertEach(read, r, last, c).1)[k]))
                         && NoEarlierKey(read, r, i, k))
    decreases if r <= last then last + 1 - r else 0
  {
    var entry := read(r).value;
    var c' := Insert(c, entry.key, entry.value);
    var res := InsertEach(read, r + 1, last, c').1;
    assert InsertEach(read, r, last, c).1 == res;
    assert KeysSorted(c') by {
      InsertExtends(c, entry.key, entry.value);
    }
    if k == entry.key {
      assert AsMap(res)[k] == entry.value by {
        InsertExtends(c, entry.key, entry.value);
        InsertEachKeeps(read, r + 1, last, c');
      }
      assert NoEarlierKey(read, r, r, k);
    } else {
      assert k !in AsMap(c') by {
        InsertIfAbsent(c, entry.key, entry.value);
      }
      assert exists i :: (&& r + 1 <= i <= last && read(i) == Ok(Entry(k, AsMap(res)[k]))
                          && NoEarlierKey(read, r + 1, i, k)) by {
        InsertEachAddsFirst(read, r + 1, last, c', k);
      }
      var i :| (&& r + 1 <= i <= last && read(i) == Ok(Entry(k, AsMap(res)[k]))
                && NoEarlierKey(read, r + 1, i, k));
      assert NoEarlierKey(read, r, i, k);
    }
  }

  /** Every entry read before the first failure has its key in the result. */
  lemma {:induction false} InsertEachCovers<V, E>(read: nat -> Result<Entry<V>, E>, r: nat, last: nat, c: Catalog<V>)
    requires KeysSorted(c)
    ensures forall i :: r <= i <= last && ReadsThrough(read, r, i) ==>
      read(i).value.key in AsMap(InsertEach(read, r, last, c).1)
    decreases if r <= last then last + 1 - r else 0
  {
    if r <= last && read(r).Ok? {
      var entry := read(r).value;
      var c' := Insert(c, entry.key, entry.value);
      var res := InsertEach(read, r + 1, last, c').1;
      assert InsertEach(read, r, last, c).1 == res;
      assert KeysSorted(c') by {
        InsertExtends(c, entry.key, entry.value);
      }
      assert entry.key in AsMap(res) by {
        InsertExtends(c, entry.key, entry.value);
        InsertEachKeeps(read, r + 1, last, c');
      }
      assert forall i :: r + 1 <= i <= last && ReadsThrough(read, r + 1, i) ==> read(i).value.key in AsMap(res) by {
        InsertEachCovers(read, r + 1, last, c');
      }
      forall i | r <= i <= last && ReadsThrough(read, r, i)
        ensures read(i).value.key in AsMap(res)
      {
        if i > r {
          assert ReadsThrough(read, r + 1, i);
        }
      }
    }
  }

  /** Every entry of an insert's result is the inserted entry or one that
      was already there. */
  lemma {:induction false} InsertEntries<V>(c: Catalog<V>, key: string, value: V)
    ensures forall i :: 0 <= i < |Insert(c, key, value)| ==>
      Insert(c, key, value)[i] == Entry(key, value) || Insert(c, key, value)[i] in c
  {
    if |c| > 0 && c[0].key != key && !StrLess(key, c[0].key) {
      InsertEntries(c[1..], key, value);
      var r := Insert(c, key, value);
      forall i | 0 < i < |r|
        ensures r[i] == Entry(key, value) || r[i] in c
      {
        assert r[i] == Insert(c[1..], key, value)[i - 1];
      }
    }
  }

  /** A property every value of the catalog has and every value read has
      holds for every value of the loop's result. */
  lemma {:induction false} InsertEachPreserves<V, E>(read: nat -> Result<Entry<V>, E>, r: nat, last: nat, c: Catalog<V>, P: V -> bool)
    requires forall i :: 0 <= i < |c| ==> P(c[i].value)
    requires forall i :: r <= i <= last && read(i).Ok? ==> P(read(i).value.value)
    ensures forall i :: 0 <= i < |InsertEach(read, r, last, c).1| ==> P(InsertEach(read, r, last, c).1[i].value)
    decreases if r <= last then last + 1 - r else 0
  {
    if r <= last && read(r).Ok? {
      var entry := read(r).value;
      var c' := Insert(c, entry.key, entry.value);
      InsertEntries(c, entry.key, entry.value);
      assert forall i :: 0 <= i < |c'| ==> P(c'[i].value);
      InsertEachPreserves(read, r + 1, last, c', P);
    }
  }
}
