/**
 * The `records` state of the table component: an ordered list of rows
 * `{key, name, age}` and the three pure list transforms the component applies
 * to it — delete-by-key (a filter), edit-by-key (a map that overwrites the
 * form fields) and add (an append).
 */
module Records {

  /** The row key. The component draws it from the clock when a row is added. */
  type Key = int

  /** One row of the table. */
  datatype Rec = Rec(key: Key, name: string, age: int)

  /** The values the add/edit form hands back once its validation succeeds. */
  datatype FormValues = FormValues(name: string, age: int)

  datatype Option<T> = None | Some(value: T)

  /** The keys of `rs`, in row order. */
  function Keys(rs: seq<Rec>): (ks: seq<Key>)
    ensures |ks| == |rs|
    ensures forall i :: 0 <= i < |rs| ==> ks[i] == rs[i].key
  {
    if rs == [] then [] else [rs[0].key] + Keys(rs[1..])
  }

  /** No key occurs twice in `ks`. */
  predicate Distinct(ks: seq<Key>)
  {
    forall i, j :: 0 <= i < j < |ks| ==> ks[i] != ks[j]
  }

  /** Every row of `rs` has a key of its own. */
  predicate UniqueKeys(rs: seq<Rec>)
  {
    Distinct(Keys(rs))
  }

  lemma {:induction false} KeysAppend(a: seq<Rec>, b: seq<Rec>)
    ensures Keys(a + b) == Keys(a) + Keys(b)
  {
    // Keys is fully determined pointwise by its contract.
  }

  // ---------------------------------------------------------------------------
  // Delete: `records.filter((item) => item.key !== key)`
  // ---------------------------------------------------------------------------

  /** The rows of `rs` whose key differs from `k`, in their original order. */
  function Delete(rs: seq<Rec>, k: Key): (r: seq<Rec>)
    ensures forall x :: x in r <==> x in rs && x.key != k
    ensures k !in Keys(r)
    ensures |r| <= |rs|
  {
    if rs == [] then []
    else if rs[0].key != k then [rs[0]] + Delete(rs[1..], k)
    else Delete(rs[1..], k)
  }

  /** Deleting distributes over concatenation: the rows that stay keep their relative order. */
  lemma {:induction false} DeleteAppend(a: seq<Rec>, b: seq<Rec>, k: Key)
    ensures Delete(a + b, k) == Delete(a, k) + Delete(b, k)
  {
    if a == [] {
      assert a + b == b;
    } else {
      assert (a + b)[1..] == a[1..] + b;
      DeleteAppend(a[1..], b, k);
    }
  }

  /** Each row with key `k` is dropped entirely; every other row keeps its multiplicity. */
  lemma {:induction false} DeleteCount(rs: seq<Rec>, k: Key, x: Rec)
    ensures multiset(Delete(rs, k))[x] == if x.key == k then 0 else multiset(rs)[x]
  {
    if rs != [] {
      var head, tail := rs[0], rs[1..];
      DeleteCount(tail, k, x);
      assert rs == [head] + tail;
      var before := multiset(rs)[x] - multiset(tail)[x];
      assert before == if head == x then 1 else 0;
      if head.key != k {
        assert Delete(rs, k) == [head] + Delete(tail, k);
        assert multiset(Delete(rs, k))[x] == before + multiset(Delete(tail, k))[x];
      } else {
        assert Delete(rs, k) == Delete(tail, k);
      }
    }
  }

  /** Deleting changes nothing exactly when no row has the key. */
  lemma {:induction false} DeleteUnchanged(rs: seq<Rec>, k: Key)
    ensures Delete(rs, k) == rs <==> k !in Keys(rs)
  {
    if rs != [] {
      DeleteUnchanged(rs[1..], k);
      assert Keys(rs) == [rs[0].key] + Keys(rs[1..]);
      if rs[0].key == k {
        assert |Delete(rs[1..], k)| <= |rs[1..]| < |rs|;
      } else {
        assert rs == [rs[0]] + rs[1..];
      }
    }
  }

  /** Deleting the same key twice: the second delete is a no-op. */
  lemma DeleteIdempotent(rs: seq<Rec>, k: Key)
    ensures Delete(Delete(rs, k), k) == Delete(rs, k)
  {
    DeleteUnchanged(Delete(rs, k), k);
  }

  /** Deleting keeps keys unique. */
  lemma {:induction false} DeleteKeepsUnique(rs: seq<Rec>, k: Key)
    requires UniqueKeys(rs)
    ensures UniqueKeys(Delete(rs, k))
  {
    if rs != [] {
      assert Keys(rs) == [rs[0].key] + Keys(rs[1..]);
      assert UniqueKeys(rs[1..]) by {
        forall i, j | 0 <= i < j < |rs[1..]|
          ensures Keys(rs[1..])[i] != Keys(rs[1..])[j]
        {
          assert Keys(rs[1..])[i] == Keys(rs)[i + 1];
          assert Keys(rs[1..])[j] == Keys(rs)[j + 1];
        }
      }
      DeleteKeepsUnique(rs[1..], k);
      if rs[0].key != k {
        var tail := Delete(rs[1..], k);
        assert rs[0].key !in Keys(tail);
        KeysAppend([rs[0]], tail);
      }
    }
  }

  // ---------------------------------------------------------------------------
  // Edit: `prevRecords.map((item) => item.key === k ? { ...item, ...values } : item)`
  // ---------------------------------------------------------------------------

  /** `{ ...item, ...values }`: the form's name and age over the row, whose key stays. */
  function Overwrite(item: Rec, v: FormValues): (r: Rec)
    ensures r.key == item.key
    ensures r.name == v.name && r.age == v.age
  {
    item.(name := v.name, age := v.age)
  }

  /** Every row whose key is `k` gets the form values; all rows keep their key and place. */
  function Edit(rs: seq<Rec>, k: Key, v: FormValues): (r: seq<Rec>)
    ensures |r| == |rs|
    ensures Keys(r) == Keys(rs)
  {
    if rs == [] then []
    else [if rs[0].key == k then Overwrite(rs[0], v) else rs[0]] + Edit(rs[1..], k, v)
  }

  /** Position by position: rows with key `k` carry the new name and age, the others are untouched. */
  lemma {:induction false} EditAt(rs: seq<Rec>, k: Key, v: FormValues, i: nat)
    requires i < |rs|
    ensures Edit(rs, k, v)[i].key == rs[i].key
    ensures rs[i].key == k ==> Edit(rs, k, v)[i] == Rec(k, v.name, v.age)
    ensures rs[i].key != k ==> Edit(rs, k, v)[i] == rs[i]
  {
    if i > 0 {
      EditAt(rs[1..], k, v, i - 1);
    }
  }

  /** Editing a key that no row has leaves the list as it was. */
  lemma {:induction false} EditAbsent(rs: seq<Rec>, k: Key, v: FormValues)
    requires k !in Keys(rs)
    ensures Edit(rs, k, v) == rs
  {
    if rs != [] {
      assert Keys(rs) == [rs[0].key] + Keys(rs[1..]);
      EditAbsent(rs[1..], k, v);
      assert rs == [rs[0]] + rs[1..];
    }
  }

  /** Two edits of the same key: the last submitted values win. */
  lemma {:induction false} EditLastWins(rs: seq<Rec>, k: Key, v1: FormValues, v2: FormValues)
    ensures Edit(Edit(rs, k, v1), k, v2) == Edit(rs, k, v2)
  {
    if rs != [] {
      EditLastWins(rs[1..], k, v1, v2);
    }
  }

  /** Editing keeps keys unique, and keeps them non-unique when they were not. */
  lemma EditKeepsUnique(rs: seq<Rec>, k: Key, v: FormValues)
    ensures UniqueKeys(Edit(rs, k, v)) <==> UniqueKeys(rs)
  {
  }

  // ---------------------------------------------------------------------------
  // Add: `[...prevRecords, { key: now, ...values }]`
  // ---------------------------------------------------------------------------

  /** The list with one new row `{key: now, name, age}` appended. */
  function Add(rs: seq<Rec>, now: Key, v: FormValues): (r: seq<Rec>)
    ensures |r| == |rs| + 1
    ensures r[..|rs|] == rs
    ensures r[|rs|] == Rec(now, v.name, v.age)
  {
    rs + [Rec(now, v.name, v.age)]
  }

  lemma DistinctSnoc(ks: seq<Key>, x: Key)
    ensures Distinct(ks + [x]) <==> Distinct(ks) && x !in ks
  {
    var t := ks + [x];
    if Distinct(t) {
      assert forall i, j :: 0 <= i < j < |ks| ==> ks[i] == t[i] && ks[j] == t[j];
      assert forall i :: 0 <= i < |ks| ==> ks[i] == t[i] != t[|ks|] == x;
    }
  }

  /** After an add the keys are unique exactly when they were before and the new key is fresh. */
  lemma AddKeepsUnique(rs: seq<Rec>, now: Key, v: FormValues)
    ensures UniqueKeys(Add(rs, now, v)) <==> UniqueKeys(rs) && now !in Keys(rs)
  {
    var row := Rec(now, v.name, v.age);
    assert Add(rs, now, v) == rs + [row];
    KeysAppend(rs, [row]);
    assert Keys([row]) == [now];
    DistinctSnoc(Keys(rs), now);
  }

  /** A row added with a fresh key is removed again, and only it, by deleting that key. */
  lemma AddThenDelete(rs: seq<Rec>, now: Key, v: FormValues)
    requires now !in Keys(rs)
    ensures Delete(Add(rs, now, v), now) == rs
  {
    DeleteAppend(rs, [Rec(now, v.name, v.age)], now);
    DeleteUnchanged(rs, now);
  }

  /** Editing the row just added changes only that row's name and age. */
  lemma AddThenEdit(rs: seq<Rec>, now: Key, v1: FormValues, v2: FormValues)
    requires now !in Keys(rs)
    ensures Edit(Add(rs, now, v1), now, v2) == Add(rs, now, v2)
  {
    var a := Add(rs, now, v1);
    forall i | 0 <= i < |a|
      ensures Edit(a, now, v2)[i] == Add(rs, now, v2)[i]
    {
      EditAt(a, now, v2, i);
      if i < |rs| {
        assert a[i] == rs[i];
        assert Keys(rs)[i] == rs[i].key;
      }
    }
  }
}
