/**
  Timeseries identity: the string key under which a timeseries' state is kept
  (receiver/prometheusreceiver/internal/metrics_adjuster.go, getTimeseriesSignature and
  the temporality suffix added by timeseriesMap.get), and the key of a job's table
  (JobsMap.get).
 */
module Signature {
  import opened Wrappers
  import opened Pdata

  // ---------------------------------------------------------------------------
  // String order (Go's `<` on strings: byte-wise, which for UTF-8 is code-point order)
  // ---------------------------------------------------------------------------

  predicate Less(a: string, b: string)
  {
    if |a| == 0 then |b| > 0
    else if |b| == 0 then false
    else if a[0] != b[0] then a[0] < b[0]
    else Less(a[1..], b[1..])
  }

  lemma {:induction false} LessIrreflexive(a: string)
    ensures !Less(a, a)
  {
    if |a| > 0 {
      LessIrreflexive(a[1..]);
    }
  }

  lemma {:induction false} LessAsymmetric(a: string, b: string)
    requires Less(a, b)
    ensures !Less(b, a)
  {
    if |a| > 0 && |b| > 0 && a[0] == b[0] {
      LessAsymmetric(a[1..], b[1..]);
    }
  }

  lemma {:induction false} LessTransitive(a: string, b: string, c: string)
    requires Less(a, b) && Less(b, c)
    ensures Less(a, c)
  {
    if |a| > 0 && a[0] == b[0] && b[0] == c[0] {
      LessTransitive(a[1..], b[1..], c[1..]);
    }
  }

  lemma {:induction false} LessTotal(a: string, b: string)
    requires a != b
    ensures Less(a, b) || Less(b, a)
  {
    if |a| > 0 && |b| > 0 && a[0] == b[0] {
      assert a == [a[0]] + a[1..] && b == [b[0]] + b[1..];
      LessTotal(a[1..], b[1..]);
    }
  }

  // ---------------------------------------------------------------------------
  // Sorting attributes by key (pcommon.Map.Sort: a stable sort on the key)
  // ---------------------------------------------------------------------------

  predicate SortedByKey(s: seq<Label>)
  {
    forall i, j :: 0 <= i < j < |s| ==> !Less(s[j].key, s[i].key)
  }

  /** Attributes that share a key are the same attribute (a map holds one value per key). */
  predicate KeyFunctional(s: seq<Label>)
  {
    forall x, y :: x in s && y in s && x.key == y.key ==> x == y
  }

  /** Inserts `x` in front of the first element whose key is not below `x`'s. */
  function Insert(x: Label, s: seq<Label>): seq<Label>
  {
    if s == [] then [x]
    else if !Less(s[0].key, x.key) then [x] + s
    else [s[0]] + Insert(x, s[1..])
  }

  lemma {:induction false} InsertPermutes(x: Label, s: seq<Label>)
    ensures multiset(Insert(x, s)) == multiset(s) + multiset{x}
  {
    if s != [] && Less(s[0].key, x.key) {
      InsertPermutes(x, s[1..]);
      assert s == [s[0]] + s[1..];
    }
  }

  lemma {:induction false} InsertSorted(x: Label, s: seq<Label>)
    requires SortedByKey(s)
    ensures SortedByKey(Insert(x, s))
  {
    if s == [] {
    } else if !Less(s[0].key, x.key) {
      forall j | 0 <= j < |s| ensures !Less(s[j].key, x.key) {
        if j > 0 && Less(s[j].key, x.key) {
          assert !Less(s[j].key, s[0].key);
          if s[j].key != s[0].key {
            LessTotal(s[j].key, s[0].key);
            LessTransitive(s[0].key, s[j].key, x.key);
          }
        }
      }
    } else {
      var t := Insert(x, s[1..]);
      InsertSorted(x, s[1..]);
      InsertPermutes(x, s[1..]);
      assert s == [s[0]] + s[1..];
      forall k | 0 <= k < |t| ensures !Less(t[k].key, s[0].key) {
        assert t[k] in multiset(t);
        if t[k] == x {
          LessAsymmetric(s[0].key, x.key);
        } else {
          assert t[k] in multiset(s[1..]);
          var j :| 0 <= j < |s[1..]| && s[1..][j] == t[k];
          assert s[j + 1] == t[k];
        }
      }
    }
  }

  /** Insertion sort by key. */
  function SortByKey(s: seq<Label>): seq<Label>
  {
    if s == [] then [] else Insert(s[0], SortByKey(s[1..]))
  }

  /** The sort orders by key and keeps every attribute. */
  lemma {:induction false} SortByKeySpec(s: seq<Label>)
    ensures multiset(SortByKey(s)) == multiset(s)
    ensures SortedByKey(SortByKey(s))
  {
    if s != [] {
      SortByKeySpec(s[1..]);
      InsertPermutes(s[0], SortByKey(s[1..]));
      InsertSorted(s[0], SortByKey(s[1..]));
      assert s == [s[0]] + s[1..];
    }
  }

  /** Attributes already in key order are left as they are. */
  lemma {:induction false} SortKeepsSorted(s: seq<Label>)
    requires SortedByKey(s)
    ensures SortByKey(s) == s
  {
    if s != [] {
      assert SortedByKey(s[1..]);
      SortKeepsSorted(s[1..]);
      assert s == [s[0]] + s[1..];
      if s[1..] != [] {
        assert !Less(s[1..][0].key, s[0].key);
      }
    }
  }

  /** Sorting twice is sorting once. */
  lemma SortIdempotent(s: seq<Label>)
    ensures SortByKey(SortByKey(s)) == SortByKey(s)
  {
    SortByKeySpec(s);
    SortKeepsSorted(SortByKey(s));
  }

  /** No attribute of a key-sorted sequence has a key below the first one's. */
  lemma SortedHeadMinimal(a: seq<Label>, x: Label)
    requires SortedByKey(a) && x in a
    ensures !Less(x.key, a[0].key)
  {
    var i :| 0 <= i < |a| && a[i] == x;
    if i == 0 {
      LessIrreflexive(x.key);
    }
  }

  lemma SortedHeadsEqual(a: seq<Label>, b: seq<Label>)
    requires SortedByKey(a) && SortedByKey(b) && a != []
    requires multiset(a) == multiset(b)
    requires KeyFunctional(a)
    ensures b != [] && a[0] == b[0]
  {
    assert a[0] in multiset(b);
    assert b != [] && b[0] in multiset(a);
    SortedHeadMinimal(a, b[0]);
    SortedHeadMinimal(b, a[0]);
    if a[0].key != b[0].key {
      LessTotal(a[0].key, b[0].key);
    }
  }

  lemma SortedTail(a: seq<Label>)
    requires SortedByKey(a) && KeyFunctional(a) && a != []
    ensures SortedByKey(a[1..]) && KeyFunctional(a[1..])
    ensures multiset(a[1..]) == multiset(a) - multiset{a[0]}
  {
    assert a == [a[0]] + a[1..];
    forall x, y | x in a[1..] && y in a[1..] && x.key == y.key ensures x == y {
      assert x in a && y in a;
    }
  }

  lemma KeyFunctionalPermutation(a: seq<Label>, b: seq<Label>)
    requires multiset(a) == multiset(b) && KeyFunctional(a)
    ensures KeyFunctional(b)
  {
    forall x, y | x in b && y in b && x.key == y.key ensures x == y {
      assert x in multiset(a) && y in multiset(a);
    }
  }

  /** Two key-sorted arrangements of the same attributes are identical. */
  lemma {:induction false} SortedUnique(a: seq<Label>, b: seq<Label>)
    requires SortedByKey(a) && SortedByKey(b)
    requires multiset(a) == multiset(b)
    requires KeyFunctional(a)
    ensures a == b
  {
    if a == [] {
      assert |b| == |multiset(b)| == 0;
    } else {
      SortedHeadsEqual(a, b);
      KeyFunctionalPermutation(a, b);
      SortedTail(a);
      SortedTail(b);
      SortedUnique(a[1..], b[1..]);
      assert a == [a[0]] + a[1..];
      assert b == [b[0]] + b[1..];
      assert a == [b[0]] + b[1..];
    }
  }

  // ---------------------------------------------------------------------------
  // Join and Split on ","
  // ---------------------------------------------------------------------------

  /** strings.Join(xs, ","). */
  function Join(xs: seq<string>): string
  {
    if |xs| == 0 then ""
    else if |xs| == 1 then xs[0]
    else xs[0] + "," + Join(xs[1..])
  }

  /** strings.Split(s, ","): the comma-separated fields of `s`, at least one. */
  function Split(s: string): (r: seq<string>)
    ensures |r| >= 1
  {
    if |s| == 0 then [""]
    else if s[0] == ',' then [""] + Split(s[1..])
    else
      var t := Split(s[1..]);
      [[s[0]] + t[0]] + t[1..]
  }

  predicate CommaFree(s: string)
  {
    ',' !in s
  }

  lemma {:induction false} SplitCommaFree(a: string)
    requires CommaFree(a)
    ensures Split(a) == [a]
  {
    if |a| > 0 {
      assert a[0] in a;
      assert CommaFree(a[1..]) by {
        forall c | c in a[1..] ensures c != ',' {
          var k :| 0 <= k < |a[1..]| && a[1..][k] == c;
          assert a[k + 1] == c;
        }
      }
      SplitCommaFree(a[1..]);
      assert a == [a[0]] + a[1..];
    }
  }

  lemma {:induction false} SplitAfterField(a: string, t: string)
    requires CommaFree(a)
    ensures Split(a + "," + t) == [a] + Split(t)
  {
    if |a| == 0 {
      assert a + "," + t == [','] + t;
      assert (a + "," + t)[1..] == t;
    } else {
      var s := a + "," + t;
      assert s[0] == a[0] && a[0] in a && a[0] != ',';
      assert s[1..] == a[1..] + "," + t;
      assert CommaFree(a[1..]) by {
        forall c | c in a[1..] ensures c != ',' {
          var k :| 0 <= k < |a[1..]| && a[1..][k] == c;
          assert a[k + 1] == c;
        }
      }
      SplitAfterField(a[1..], t);
      assert [a[0]] + a[1..] == a;
    }
  }

  /** Split inverts Join when no field holds a comma. */
  lemma {:induction false} SplitJoin(xs: seq<string>)
    requires |xs| >= 1
    requires forall i :: 0 <= i < |xs| ==> CommaFree(xs[i])
    ensures Split(Join(xs)) == xs
  {
    if |xs| == 1 {
      SplitCommaFree(xs[0]);
    } else {
      SplitAfterField(xs[0], Join(xs[1..]));
      SplitJoin(xs[1..]);
      assert xs == [xs[0]] + xs[1..];
    }
  }

  lemma {:induction false} JoinSnoc(xs: seq<string>, b: string)
    requires |xs| >= 1
    ensures Join(xs + [b]) == Join(xs) + "," + b
  {
    if |xs| == 1 {
      assert (xs + [b])[1..] == [b];
    } else {
      assert (xs + [b])[1..] == xs[1..] + [b];
      JoinSnoc(xs[1..], b);
    }
  }

  // ---------------------------------------------------------------------------
  // Timeseries signature
  // ---------------------------------------------------------------------------

  /** The non-empty attribute values, in order; empty values are dropped. */
  function NonEmptyValues(s: seq<Label>): (r: seq<string>)
    ensures forall i :: 0 <= i < |r| ==> r[i] != ""
  {
    if s == [] then []
    else (if s[0].value != "" then [s[0].value] else []) + NonEmptyValues(s[1..])
  }

  /** Every value kept is the value of one of the attributes. */
  lemma {:induction false} NonEmptyValuesFrom(s: seq<Label>, v: string)
    requires v in NonEmptyValues(s)
    ensures exists l :: l in s && l.value == v
  {
    if s[0].value != v {
      if s[0].value != "" {
        assert NonEmptyValues(s) == [s[0].value] + NonEmptyValues(s[1..]);
      }
      NonEmptyValuesFrom(s[1..], v);
      var l :| l in s[1..] && l.value == v;
      assert l in s;
    }
  }

  /** The label values a signature is made of: non-empty values in key order. */
  function SignatureValues(labels: seq<Label>): seq<string>
  {
    NonEmptyValues(SortByKey(labels))
  }

  /** getTimeseriesSignature: `name,v1,v2,...` (just `name,` when no value is left). */
  function MetricSignature(name: string, labels: seq<Label>): (r: string)
    // the metric name comes first, then a comma
    ensures |r| > |name| && r[..|name|] == name && r[|name|] == ','
  {
    name + "," + Join(SignatureValues(labels))
  }

  /**
    The key timeseriesMap.get uses: the metric signature, followed for a histogram
    (`histogram` is its temporality) by `,` and the temporality's name.
   */
  function TimeseriesSignature(name: string, histogram: Option<Temporality>, labels: seq<Label>): (r: string)
    // it extends the metric signature, by the temporality's name for a histogram only
    ensures var m := MetricSignature(name, labels);
            |r| >= |m| && r[..|m|] == m && (histogram.None? <==> |r| == |m|)
  {
    var sig := MetricSignature(name, labels);
    if histogram.Some? then sig + "," + TemporalityName(histogram.value) else sig
  }

  /** The comma-separated fields a signature consists of. */
  function Fields(name: string, histogram: Option<Temporality>, labels: seq<Label>): (r: seq<string>)
    ensures |r| >= 2 && r[0] == name
  {
    var vs := SignatureValues(labels);
    [name] + (if vs == [] then [""] else vs)
      + (if histogram.Some? then [TemporalityName(histogram.value)] else [])
  }

  lemma {:induction false} SignatureIsJoin(name: string, histogram: Option<Temporality>, labels: seq<Label>)
    ensures TimeseriesSignature(name, histogram, labels) == Join(Fields(name, histogram, labels))
  {
    var vs := SignatureValues(labels);
    var body := [name] + (if vs == [] then [""] else vs);
    assert body[1..] == (if vs == [] then [""] else vs);
    assert Join(body) == MetricSignature(name, labels);
    if histogram.Some? {
      JoinSnoc(body, TemporalityName(histogram.value));
    } else {
      assert Fields(name, histogram, labels) == body;
    }
  }

  /** Splitting a signature on commas recovers the name, the values and the temporality. */
  lemma SplitSignature(name: string, histogram: Option<Temporality>, labels: seq<Label>)
    requires CommaFree(name)
    requires forall l :: l in labels ==> CommaFree(l.value)
    ensures Split(TimeseriesSignature(name, histogram, labels)) == Fields(name, histogram, labels)
  {
    SignatureIsJoin(name, histogram, labels);
    var f := Fields(name, histogram, labels);
    var vs := SignatureValues(labels);
    forall i | 0 <= i < |f| ensures CommaFree(f[i]) {
      if 0 < i <= |vs| {
        assert f[i] == vs[i - 1] && vs[i - 1] in vs;
        var sorted := SortByKey(labels);
        SortByKeySpec(labels);
        NonEmptyValuesFrom(sorted, f[i]);
        var l :| l in sorted && l.value == f[i];
        assert l in multiset(sorted);
      }
    }
    SplitJoin(f);
  }

  /**
    Without commas in names and values, two timeseries share a signature exactly when they
    have the same name, the same non-empty values in key order and the same temporality.
   */
  lemma SignatureInjective(n1: string, h1: Option<Temporality>, l1: seq<Label>,
                           n2: string, h2: Option<Temporality>, l2: seq<Label>)
    requires CommaFree(n1) && CommaFree(n2)
    requires forall l :: l in l1 ==> CommaFree(l.value)
    requires forall l :: l in l2 ==> CommaFree(l.value)
    requires h1.Some? == h2.Some?
    requires TimeseriesSignature(n1, h1, l1) == TimeseriesSignature(n2, h2, l2)
    ensures n1 == n2 && h1 == h2 && SignatureValues(l1) == SignatureValues(l2)
  {
    SplitSignature(n1, h1, l1);
    SplitSignature(n2, h2, l2);
    FieldsParts(n1, h1, l1);
    FieldsParts(n2, h2, l2);
    if h1.Some? {
      TemporalityNameInjective(h1.value, h2.value);
    }
  }

  /** The fields of a signature taken apart: the name, the values (or one empty field), the temporality. */
  lemma FieldsParts(name: string, histogram: Option<Temporality>, labels: seq<Label>)
    ensures var f := Fields(name, histogram, labels);
            var vs := SignatureValues(labels);
            var middle := if vs == [] then [""] else vs;
            && (histogram.Some? ==> f[1..|f| - 1] == middle && f[|f| - 1] == TemporalityName(histogram.value))
            && (histogram.None? ==> f[1..] == middle)
            && (middle == [""] <==> vs == [])
  {
    var vs := SignatureValues(labels);
    if vs != [] {
      assert vs[0] != "";
    }
  }

  /** The signature does not depend on the order the attributes are stored in. */
  lemma OrderIndependent(name: string, histogram: Option<Temporality>, l1: seq<Label>, l2: seq<Label>)
    requires multiset(l1) == multiset(l2)
    requires KeyFunctional(l1)
    ensures TimeseriesSignature(name, histogram, l1) == TimeseriesSignature(name, histogram, l2)
  {
    var s1, s2 := SortByKey(l1), SortByKey(l2);
    SortByKeySpec(l1);
    SortByKeySpec(l2);
    assert KeyFunctional(s1) by {
      forall x, y | x in s1 && y in s1 && x.key == y.key ensures x == y {
        assert x in multiset(s1) && y in multiset(s1);
        assert x in l1 && y in l1;
      }
    }
    SortedUnique(s1, s2);
  }

  /** Sorting the attributes in place, as the signature computation does, keeps the signature. */
  lemma SortedSameSignature(name: string, histogram: Option<Temporality>, labels: seq<Label>)
    ensures TimeseriesSignature(name, histogram, SortByKey(labels)) == TimeseriesSignature(name, histogram, labels)
  {
    SortIdempotent(labels);
  }

  /** Two attribute lists with the same values, position by position, keep the same non-empty values. */
  lemma {:induction false} SameValuesSameNonEmpty(a: seq<Label>, b: seq<Label>)
    requires |a| == |b| && forall i :: 0 <= i < |a| ==> a[i].value == b[i].value
    ensures NonEmptyValues(a) == NonEmptyValues(b)
    decreases |a|
  {
    if a != [] {
      SameValuesSameNonEmpty(a[1..], b[1..]);
    }
  }

  /**
    Only values make up the signature: two attribute lists in key order whose values agree
    position by position share a signature, whatever their keys (so `{a="x"}` and `{b="x"}`
    of one metric are one timeseries).
   */
  lemma KeysNotInSignature(name: string, histogram: Option<Temporality>, l1: seq<Label>, l2: seq<Label>)
    requires SortedByKey(l1) && SortedByKey(l2)
    requires |l1| == |l2| && forall i :: 0 <= i < |l1| ==> l1[i].value == l2[i].value
    ensures TimeseriesSignature(name, histogram, l1) == TimeseriesSignature(name, histogram, l2)
  {
    SortKeepsSorted(l1);
    SortKeepsSorted(l2);
    SameValuesSameNonEmpty(l1, l2);
  }

  lemma {:induction false} InsertEmptyValue(x: Label, s: seq<Label>)
    requires x.value == ""
    ensures NonEmptyValues(Insert(x, s)) == NonEmptyValues(s)
  {
    if s != [] && Less(s[0].key, x.key) {
      InsertEmptyValue(x, s[1..]);
      assert ([s[0]] + Insert(x, s[1..]))[1..] == Insert(x, s[1..]);
    } else {
      assert ([x] + s)[1..] == s;
    }
  }

  /** An attribute with an empty value does not contribute to the signature. */
  lemma EmptyValueIgnored(name: string, histogram: Option<Temporality>, x: Label, labels: seq<Label>)
    requires x.value == ""
    ensures TimeseriesSignature(name, histogram, [x] + labels) == TimeseriesSignature(name, histogram, labels)
  {
    assert ([x] + labels)[1..] == labels;
    InsertEmptyValue(x, SortByKey(labels));
  }

  // ---------------------------------------------------------------------------
  // Job signature
  // ---------------------------------------------------------------------------

  /** The key of a job's table: `job:instance`. */
  function JobSignature(job: string, instance: string): (r: string)
    // the key splits back at position |job| into job, colon and instance
    ensures |r| == |job| + 1 + |instance|
    ensures r[..|job|] == job && r[|job|] == ':' && r[|job| + 1..] == instance
  {
    job + ":" + instance
  }

  /** When job names hold no colon, the job key identifies job and instance. */
  lemma JobSignatureInjective(j1: string, i1: string, j2: string, i2: string)
    requires ':' !in j1 && ':' !in j2
    requires JobSignature(j1, i1) == JobSignature(j2, i2)
    ensures j1 == j2 && i1 == i2
  {
    var s := JobSignature(j1, i1);
    if |j1| == |j2| {
      assert j1 == s[..|j1|] == j2;
      assert i1 == s[|j1| + 1..] == i2;
    }
  }

  /** A colon in the job name makes the key ambiguous. */
  lemma JobSignatureAmbiguous()
    ensures JobSignature("a:b", "c") == JobSignature("a", "b:c")
  {
  }
}
