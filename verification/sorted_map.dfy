/** `BTreeMap<Vec<u8>, Vec<u8>>`, the container behind both the memtable and
    a decoded SSTable: a sequence of entries whose keys strictly increase in
    byte-string order, which is also the order the map iterates in. `ToMap`
    gives the mapping such a sequence stands for. */
module SortedMap {
  import opened Wrappers
  import opened Lex

  datatype Entry = Entry(key: Bytes, value: Bytes)

  ghost predicate StrictlySorted(es: seq<Entry>)
  {
    forall i, j :: 0 <= i < j < |es| ==> BytesLess(es[i].key, es[j].key)
  }

  /** A map in iteration order: keys unique and ascending. */
  type Table = es: seq<Entry> | StrictlySorted(es) witness []

  /** The mapping a sequence of (key, value) writes leaves behind when applied
      in order: for a repeated key the LATER entry wins. On a `Table` every key
      occurs once, so this is simply the table's contents. */
  function ToMap(es: seq<Entry>): map<Bytes, Bytes>
  {
    if |es| == 0 then map[]
    else
      var rest := ToMap(es[1..]);
      if es[0].key in rest then rest else rest[es[0].key := es[0].value]
  }

  /** The keys of the mapping are exactly the keys written. */
  lemma {:induction false} ToMapKeys(es: seq<Entry>, k: Bytes)
    ensures k in ToMap(es) <==> exists i :: 0 <= i < |es| && es[i].key == k
    decreases |es|
  {
    if |es| > 0 {
      ToMapKeys(es[1..], k);
      if k in ToMap(es[1..]) {
        var i :| 0 <= i < |es[1..]| && es[1..][i].key == k;
        assert es[i + 1].key == k;
      }
    }
  }

  /** Appending a write to the sequence updates the mapping it stands for. */
  lemma {:induction false} ToMapAppend(es: seq<Entry>, e: Entry)
    ensures ToMap(es + [e]) == ToMap(es)[e.key := e.value]
    decreases |es|
  {
    if |es| > 0 {
      assert (es + [e])[1..] == es[1..] + [e];
      ToMapAppend(es[1..], e);
    }
  }

  /** Every key of a table lies above a key that sorts below its first key. */
  lemma BelowHeadBelowAll(k: Bytes, t: Table)
    requires |t| > 0 && BytesLess(k, t[0].key)
    ensures forall i :: 0 <= i < |t| ==> BytesLess(k, t[i].key)
  {
    forall i | 0 < i < |t| ensures BytesLess(k, t[i].key) {
      BytesLessTransitive(k, t[0].key, t[i].key);
    }
  }

  /** An entry below the first key of a table can be put in front of it. */
  lemma ConsSorted(e: Entry, t: Table)
    requires |t| > 0 ==> BytesLess(e.key, t[0].key)
    ensures StrictlySorted([e] + t)
    ensures ([e] + t)[1..] == t
  {
    if |t| > 0 {
      BelowHeadBelowAll(e.key, t);
    }
  }

  /** A key below every key of a sequence is not in its mapping. */
  lemma BelowAllNotIn(k: Bytes, es: seq<Entry>)
    requires forall i :: 0 <= i < |es| ==> BytesLess(k, es[i].key)
    ensures k !in ToMap(es)
  {
    ToMapKeys(es, k);
    if k in ToMap(es) {
      var i :| 0 <= i < |es| && es[i].key == k;
      BytesLessIrreflexive(k);
    }
  }

  lemma HeadNotInTail(t: Table)
    requires |t| > 0
    ensures t[0].key !in ToMap(t[1..])
  {
    BelowAllNotIn(t[0].key, t[1..]);
  }

  /** A table has one entry per key, so its length is the map's size. */
  lemma {:induction false} TableSize(t: Table)
    ensures |ToMap(t)| == |t|
    decreases |t|
  {
    if |t| > 0 {
      HeadNotInTail(t);
      TableSize(t[1..]);
    }
  }

  /** `BTreeMap::get`. */
  function Find(t: Table, k: Bytes): (r: Option<Bytes>)
    ensures r.Some? <==> k in ToMap(t)
    ensures r.Some? ==> r.value == ToMap(t)[k]
    decreases |t|
  {
    if |t| == 0 then None
    else if t[0].key == k then
      HeadNotInTail(t);
      Some(t[0].value)
    else Find(t[1..], k)
  }

  /** `BTreeMap::insert`: add the entry, or overwrite the value of an existing key. */
  function Insert(t: Table, k: Bytes, v: Bytes): (r: Table)
    ensures ToMap(r) == ToMap(t)[k := v]
    ensures |r| > 0 && (r[0].key == k || (|t| > 0 && r[0].key == t[0].key))
    decreases |t|
  {
    if |t| == 0 then [Entry(k, v)]
    else if t[0].key == k then
      HeadNotInTail(t);
      [Entry(k, v)] + t[1..]
    else if BytesLess(k, t[0].key) then
      BelowHeadBelowAll(k, t);
      BelowAllNotIn(k, t);
      [Entry(k, v)] + t
    else
      InsertBehindHead(t, k, v)
  }

  /** The case of `Insert` where the new key sorts after the first key. */
  function InsertBehindHead(t: Table, k: Bytes, v: Bytes): (r: Table)
    requires |t| > 0 && t[0].key != k && !BytesLess(k, t[0].key)
    ensures ToMap(r) == ToMap(t)[k := v]
    ensures |r| > 0 && r[0].key == t[0].key
    decreases |t|, 0
  {
    BytesLessTotal(k, t[0].key);
    HeadNotInTail(t);
    var tail := Insert(t[1..], k, v);
    assert BytesLess(t[0].key, tail[0].key) by {
      if tail[0].key != k { assert tail[0].key == t[1].key; }
    }
    ConsSorted(t[0], tail);
    ToMapCons(t[0], tail);
    [t[0]] + tail
  }

  /** Writing a fresh key in front adds exactly that key. */
  lemma ToMapCons(e: Entry, tail: seq<Entry>)
    requires e.key !in ToMap(tail)
    ensures ToMap([e] + tail) == ToMap(tail)[e.key := e.value]
  {
    assert ([e] + tail)[1..] == tail;
  }

  /** `BTreeMap::remove`: drop the key's entry if there is one. */
  function Remove(t: Table, k: Bytes): (r: Table)
    ensures ToMap(r) == ToMap(t) - {k}
    ensures |r| > 0 ==> |t| > 0 && (r[0] == t[0] || (|t| > 1 && r[0] == t[1]))
    decreases |t|
  {
    if |t| == 0 then []
    else if t[0].key == k then
      HeadNotInTail(t);
      t[1..]
    else
      HeadNotInTail(t);
      var tail := Remove(t[1..], k);
      assert |tail| > 0 ==> BytesLess(t[0].key, tail[0].key);
      ConsSorted(t[0], tail);
      ToMapCons(t[0], tail);
      ToMapCons(t[0], t[1..]);
      assert [t[0]] + t[1..] == t;
      [t[0]] + tail
  }

  /** Insert a sequence of writes, one after another, as a decoding loop does. */
  function InsertAll(acc: Table, es: seq<Entry>): (r: Table)
    decreases |es|
  {
    if |es| == 0 then acc else InsertAll(Insert(acc, es[0].key, es[0].value), es[1..])
  }

  /** Inserting writes one by one leaves the mapping of the whole write
      sequence behind: a repeated key keeps its last value. */
  lemma {:induction false} InsertAllLaterWins(acc: Table, es: seq<Entry>)
    ensures ToMap(InsertAll(acc, es)) == ToMap(acc + es)
    decreases |es|
  {
    if |es| == 0 {
      assert acc + es == acc;
    } else {
      var acc' := Insert(acc, es[0].key, es[0].value);
      InsertAllLaterWins(acc', es[1..]);
      InsertIsAppend(acc, es);
    }
  }

  /** One step of `InsertAllLaterWins`: the first insert stands for writing the first entry. */
  lemma InsertIsAppend(acc: Table, es: seq<Entry>)
    requires |es| > 0
    ensures ToMap(Insert(acc, es[0].key, es[0].value) + es[1..]) == ToMap(acc + es)
  {
    var acc': seq<Entry> := Insert(acc, es[0].key, es[0].value);
    var wrote: seq<Entry> := acc + [es[0]];
    ToMapAppend(acc, es[0]);
    ToMapOfConcatCongruent(acc', wrote, es[1..]);
    MoveHead(acc, es);
  }

  lemma MoveHead(acc: seq<Entry>, es: seq<Entry>)
    requires |es| > 0
    ensures acc + [es[0]] + es[1..] == acc + es
  {
    assert es == [es[0]] + es[1..];
  }

  /** Sequences with the same mapping keep the same mapping after the same writes. */
  lemma {:induction false} ToMapOfConcatCongruent(a: seq<Entry>, b: seq<Entry>, es: seq<Entry>)
    requires ToMap(a) == ToMap(b)
    ensures ToMap(a + es) == ToMap(b + es)
    decreases |es|
  {
    if |es| > 0 {
      var last := es[|es| - 1];
      var init := es[..|es| - 1];
      assert es == init + [last];
      ToMapOfConcatCongruent(a, b, init);
      assert a + es == (a + init) + [last];
      assert b + es == (b + init) + [last];
      ToMapAppend(a + init, last);
      ToMapAppend(b + init, last);
    } else {
      assert a + es == a && b + es == b;
    }
  }

  /** A table is determined by its mapping: two tables with the same contents
      are the same sequence. */
  lemma {:induction false} TableExtensional(t: Table, u: Table)
    requires ToMap(t) == ToMap(u)
    ensures t == u
    decreases |t|
  {
    if |t| == 0 || |u| == 0 {
      TableSize(t);
      TableSize(u);
    } else {
      HeadNotInTail(t);
      HeadNotInTail(u);
      if t[0].key != u[0].key {
        BytesLessTotal(t[0].key, u[0].key);
        if BytesLess(t[0].key, u[0].key) {
          BelowHeadBelowAll(t[0].key, u);
          BelowAllNotIn(t[0].key, u);
        } else {
          BelowHeadBelowAll(u[0].key, t);
          BelowAllNotIn(u[0].key, t);
        }
      } else {
        assert ToMap(t[1..]) == ToMap(t) - {t[0].key};
        assert ToMap(u[1..]) == ToMap(u) - {u[0].key};
        TableExtensional(t[1..], u[1..]);
        assert t[0].value == ToMap(t)[t[0].key] && u[0].value == ToMap(u)[u[0].key];
        assert t == [t[0]] + t[1..] && u == [u[0]] + u[1..];
      }
    }
  }

  /** Inserting the entries of a table, in order, into a table whose keys all
      sort below them rebuilds the concatenation: each insert appends. */
  lemma {:induction false} InsertAllAscending(acc: Table, t: Table)
    requires forall i, j :: 0 <= i < |acc| && 0 <= j < |t| ==> BytesLess(acc[i].key, t[j].key)
    ensures StrictlySorted(acc + t)
    ensures InsertAll(acc, t) == acc + t
  {
    var whole := acc + t;
    assert StrictlySorted(whole) by {
      forall i, j | 0 <= i < j < |whole| ensures BytesLess(whole[i].key, whole[j].key) {
        if j < |acc| {
        } else if i >= |acc| {
          assert whole[i] == t[i - |acc|] && whole[j] == t[j - |acc|];
        } else {
          assert whole[j] == t[j - |acc|];
        }
      }
    }
    InsertAllLaterWins(acc, t);
    TableExtensional(InsertAll(acc, t), whole);
  }

  /** Inserting a table's entries, in order, into an empty map rebuilds the table. */
  lemma InsertAllIntoEmpty(t: Table)
    ensures InsertAll([], t) == t
  {
    InsertAllAscending([], t);
    assert [] + t == t;
  }
}
