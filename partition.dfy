/** Grouping the normalised records by state (scripts/update.js, lines
    140-146): a dictionary from state to the list of that state's records,
    filled by one pass that creates a bucket the first time a state is seen
    and appends each record to its bucket. */
module Partition {
  import opened Values
  import opened Normalize

  /** The bucket for records without a usable state. */
  const Unknown: string := "UNKNOWN"

  /** `row.physical_state || "UNKNOWN"`: the state when it is a non-empty
      string, otherwise the fallback. Never the empty string. */
  function StateKey(r: LocaleRecord): (k: string)
    ensures k != ""
    ensures Truthy(r.physicalState) ==> k == r.physicalState.text
    ensures !Truthy(r.physicalState) ==> k == Unknown
  {
    if Truthy(r.physicalState) then r.physicalState.text else Unknown
  }

  /** Bucket `k` as a reference definition: the records with key `k`, in the
      order they appear. It holds only rows of `rows`, all with key `k`. */
  function Bucket(rows: seq<LocaleRecord>, k: string): (b: seq<LocaleRecord>)
    ensures |b| <= |rows|
    decreases |rows|
  {
    if rows == [] then []
    else
      var last := rows[|rows| - 1];
      Bucket(rows[..|rows| - 1], k) + (if StateKey(last) == k then [last] else [])
  }

  /** A bucket holds only rows of `rows`, and only rows with its key, so no
      row can sit in two buckets. */
  lemma {:induction false} BucketMembers(rows: seq<LocaleRecord>, k: string)
    ensures forall r :: r in Bucket(rows, k) ==> r in rows && StateKey(r) == k
    decreases |rows|
  {
    if rows != [] {
      var p := rows[..|rows| - 1];
      BucketMembers(p, k);
      assert forall r :: r in p ==> r in rows;
    }
  }

  /** No key occurs twice. */
  predicate Distinct(ks: seq<string>) {
    forall i, j :: 0 <= i < j < |ks| ==> ks[i] != ks[j]
  }

  /** The keys in the order they are first met, which is the order the
      dictionary's own properties are listed in; no key is listed twice. */
  function StateKeys(rows: seq<LocaleRecord>): (ks: seq<string>)
    ensures Distinct(ks)
    decreases |rows|
  {
    if rows == [] then []
    else
      var keys := StateKeys(rows[..|rows| - 1]);
      var k := StateKey(rows[|rows| - 1]);
      if k in keys then keys else keys + [k]
  }

  /** The keys listed are exactly those with a non-empty bucket. */
  lemma {:induction false} BucketNonEmptyIffKey(rows: seq<LocaleRecord>, k: string)
    ensures Bucket(rows, k) != [] <==> k in StateKeys(rows)
    decreases |rows|
  {
    if rows != [] {
      BucketNonEmptyIffKey(rows[..|rows| - 1], k);
    }
  }

  /** Every row's key is listed. */
  lemma RowKeyListed(rows: seq<LocaleRecord>, j: nat)
    requires j < |rows|
    ensures StateKey(rows[j]) in StateKeys(rows)
  {
    BucketPosition(rows, j);
    BucketNonEmptyIffKey(rows, StateKey(rows[j]));
  }

  /** Every listed key is the key of some row, so together with
      `RowKeyListed` the listed keys are exactly the rows' keys. */
  lemma KeyIsRowKey(rows: seq<LocaleRecord>, k: string)
    requires k in StateKeys(rows)
    ensures exists j :: 0 <= j < |rows| && StateKey(rows[j]) == k
  {
    BucketNonEmptyIffKey(rows, k);
    BucketMembers(rows, k);
    var r := Bucket(rows, k)[0];
    assert r in Bucket(rows, k);
    var j :| 0 <= j < |rows| && rows[j] == r;
  }

  /** `byState` with key order `order` is the partition of `rows`: its keys
      are the keys met, in order, and each holds that key's bucket. */
  ghost predicate IsPartition(rows: seq<LocaleRecord>, byState: map<string, seq<LocaleRecord>>, order: seq<string>) {
    && order == StateKeys(rows)
    && (forall k :: k in byState <==> k in order)
    && (forall k :: k in byState ==> byState[k] == Bucket(rows, k))
  }

  /** The partition loop. `byState` is the dictionary and `order` the order
      of its keys. Each key met has its bucket, and nothing else is there. */
  method PartitionByState(rows: seq<LocaleRecord>) returns (byState: map<string, seq<LocaleRecord>>, order: seq<string>)
    ensures order == StateKeys(rows)
    ensures forall k :: k in byState <==> k in order
    ensures forall k :: k in byState ==> byState[k] == Bucket(rows, k)
  {
    byState, order := map[], [];
    var i := 0;
    while i < |rows|
      invariant 0 <= i <= |rows|
      invariant IsPartition(rows[..i], byState, order)
    {
      var row := rows[i];
      var state := StateKey(row);
      ghost var before, orderBefore := byState, order;
      if state !in byState {
        byState := byState[state := []];
        order := order + [state];
      }
      byState := byState[state := byState[state] + [row]];
      PartitionStep(rows[..i], row, before, orderBefore, byState, order);
      assert rows[..i + 1] == rows[..i] + [row];
      i := i + 1;
    }
    assert rows[..i] == rows;
  }

  /** One iteration of the loop keeps the partition: a new key gets an empty
      bucket at the end of the order, and the row is pushed onto its bucket. */
  lemma PartitionStep(
    rows: seq<LocaleRecord>, x: LocaleRecord,
    byState: map<string, seq<LocaleRecord>>, order: seq<string>,
    byState': map<string, seq<LocaleRecord>>, order': seq<string>)
    requires IsPartition(rows, byState, order)
    requires var k := StateKey(x);
      var created := if k in byState then byState else byState[k := []];
      order' == (if k in byState then order else order + [k]) &&
      byState' == created[k := created[k] + [x]]
    ensures IsPartition(rows + [x], byState', order')
  {
    var k := StateKey(x);
    assert order' == StateKeys(rows + [x]) by {
      StateKeysSnoc(rows, x);
    }
    assert k in byState' && byState'[k] == Bucket(rows, k) + [x] by {
      if k !in byState {
        BucketNonEmptyIffKey(rows, k);
      }
      BucketSnoc(rows, x, k);
    }
    forall k' | k' in byState' ensures byState'[k'] == Bucket(rows + [x], k') {
      BucketSnoc(rows, x, k');
    }
  }

  /** One step of the reference definitions: appending a row extends its
      own bucket by it and leaves the others alone. */
  lemma BucketSnoc(rows: seq<LocaleRecord>, x: LocaleRecord, k: string)
    ensures Bucket(rows + [x], k) == Bucket(rows, k) + (if StateKey(x) == k then [x] else [])
  {
    assert (rows + [x])[..|rows|] == rows;
  }

  /** One step of the key order: a new key goes at the end. */
  lemma StateKeysSnoc(rows: seq<LocaleRecord>, x: LocaleRecord)
    ensures StateKeys(rows + [x]) ==
      if StateKey(x) in StateKeys(rows) then StateKeys(rows) else StateKeys(rows) + [StateKey(x)]
  {
    assert (rows + [x])[..|rows|] == rows;
  }

  /** Bucketing a concatenation is bucketing the parts: earlier rows stay
      ahead of later ones in every bucket. */
  lemma {:induction false} BucketAppend(a: seq<LocaleRecord>, b: seq<LocaleRecord>, k: string)
    ensures Bucket(a + b, k) == Bucket(a, k) + Bucket(b, k)
    decreases |b|
  {
    if b == [] {
      assert a + b == a;
    } else {
      var b' := b[..|b| - 1];
      assert (a + b)[..|a + b| - 1] == a + b';
      assert (a + b)[|a + b| - 1] == b[|b| - 1];
      BucketAppend(a, b', k);
    }
  }

  /** Row `j` sits in its own bucket, at the position given by the number of
      earlier rows with the same key. */
  lemma BucketPosition(rows: seq<LocaleRecord>, j: nat)
    requires j < |rows|
    ensures var k := StateKey(rows[j]);
      |Bucket(rows[..j], k)| < |Bucket(rows, k)| && Bucket(rows, k)[|Bucket(rows[..j], k)|] == rows[j]
  {
    var k := StateKey(rows[j]);
    assert rows == rows[..j] + ([rows[j]] + rows[j + 1..]);
    BucketAppend(rows[..j], [rows[j]] + rows[j + 1..], k);
    BucketAppend([rows[j]], rows[j + 1..], k);
    assert Bucket([rows[j]], k) == [rows[j]] by {
      assert [rows[j]][..0] == [];
    }
  }

  /** Relative order is kept: of two rows with the same key, the earlier one
      sits earlier in the bucket. */
  lemma BucketKeepsOrder(rows: seq<LocaleRecord>, i: nat, j: nat)
    requires i < j < |rows|
    requires StateKey(rows[i]) == StateKey(rows[j])
    ensures |Bucket(rows[..i], StateKey(rows[i]))| < |Bucket(rows[..j], StateKey(rows[j]))|
  {
    var k := StateKey(rows[i]);
    assert rows[..j] == rows[..i] + ([rows[i]] + rows[i + 1..j]);
    BucketAppend(rows[..i], [rows[i]] + rows[i + 1..j], k);
    BucketAppend([rows[i]], rows[i + 1..j], k);
    assert Bucket([rows[i]], k) == [rows[i]] by {
      assert [rows[i]][..0] == [];
    }
  }

  /** The total size of the buckets of keys `ks`. */
  function SumSizes(rows: seq<LocaleRecord>, ks: seq<string>): nat
    decreases |ks|
  {
    if ks == [] then 0
    else SumSizes(rows, ks[..|ks| - 1]) + |Bucket(rows, ks[|ks| - 1])|
  }

  /** Adding a row adds one to the bucket sizes of a distinct key list that
      holds its key, and nothing to one that does not. */
  lemma {:induction false} SumSizesSnoc(rows: seq<LocaleRecord>, x: LocaleRecord, ks: seq<string>)
    requires Distinct(ks)
    ensures SumSizes(rows + [x], ks) == SumSizes(rows, ks) + (if StateKey(x) in ks then 1 else 0)
    decreases |ks|
  {
    if ks != [] {
      var ks' := ks[..|ks| - 1];
      assert (rows + [x])[..|rows|] == rows;
      assert forall i :: 0 <= i < |ks'| ==> ks'[i] == ks[i];
      SumSizesSnoc(rows, x, ks');
      assert StateKey(x) in ks <==> StateKey(x) in ks' || StateKey(x) == ks[|ks| - 1] by {
        assert ks == ks' + [ks[|ks| - 1]];
      }
    }
  }

  /** The partition is total and disjoint: the bucket sizes add up to the
      number of rows. */
  lemma {:induction false} BucketsCoverRows(rows: seq<LocaleRecord>)
    ensures SumSizes(rows, StateKeys(rows)) == |rows|
    decreases |rows|
  {
    if rows != [] {
      var p := rows[..|rows| - 1];
      var x := rows[|rows| - 1];
      assert rows == p + [x];
      BucketsCoverRows(p);
      var kp := StateKeys(p);
      var k := StateKey(x);
      SumSizesSnoc(p, x, kp);
      if k !in kp {
        BucketNonEmptyIffKey(p, k);
        assert (kp + [k])[..|kp|] == kp;
      }
    }
  }
}
