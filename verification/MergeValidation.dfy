/**
 The field-merging validator: fields are put into buckets by response key, each
 bucket keeps one comparison representative per signature and stops at its first
 conflict, and a bucket's selection lists are merged by one recursive call.
 */
module MergeValidation {
  import opened Values
  import opened Schema
  import opened Document
  import opened FieldCollection
  import opened FieldMerging

  // ----- Signatures -----

  /** What a comparison can see of a field. */
  datatype Signature = Signature(name: string, arguments: Option<Value>, shape: Option<Shape>, parent: string)

  ghost function SignatureOf(s: CompiledSchema, e: Entry): Signature {
    Signature(e.field.name, NormalArguments(e.field.arguments),
              if EntryType(s, e).Some? then Some(ShapeOf(s, EntryType(s, e).value)) else None, e.parent)
  }

  ghost predicate SignaturesCompatible(s: CompiledSchema, a: Signature, b: Signature) {
    && a.shape.Some? && a.shape == b.shape
    && (TypesOverlap(s, a.parent, b.parent) ==> a.name == b.name && a.arguments == b.arguments)
  }

  /** Compatibility depends on the signatures alone; it is symmetric. */
  lemma CompatibleBySignature(s: CompiledSchema, a: Entry, b: Entry)
    ensures Compatible(s, a, b) <==> SignaturesCompatible(s, SignatureOf(s, a), SignatureOf(s, b))
    ensures Compatible(s, a, b) <==> Compatible(s, b, a)
  {
    ArgumentsEqualIffSameNormalForm(a.field.arguments, b.field.arguments);
    ArgumentsEqualIffSameNormalForm(b.field.arguments, a.field.arguments);
    if EntryType(s, a).Some? && EntryType(s, b).Some? {
      SameResponseShapeIffSameShape(s, EntryType(s, a).value, EntryType(s, b).value);
      SameResponseShapeIffSameShape(s, EntryType(s, b).value, EntryType(s, a).value);
    }
  }

  // ----- One level of the document, in collection order -----

  function Filter<T>(xs: seq<T>, p: T -> bool): (ys: seq<T>)
    ensures |ys| <= |xs| && forall y :: y in ys ==> y in xs && p(y)
  {
    if xs == [] then []
    else Filter(xs[..|xs| - 1], p) + (if p(xs[|xs| - 1]) then [xs[|xs| - 1]] else [])
  }

  lemma {:induction false} FilterOrigins<T>(xs: seq<T>, p: T -> bool, k: nat, l: nat) returns (i: nat, j: nat)
    requires k < l < |Filter(xs, p)|
    ensures i < j < |xs| && xs[i] == Filter(xs, p)[k] && xs[j] == Filter(xs, p)[l]
  {
    var n := |xs| - 1;
    if l < |Filter(xs[..n], p)| {
      i, j := FilterOrigins(xs[..n], p, k, l);
    } else {
      j := n;
      assert Filter(xs, p)[k] in Filter(xs[..n], p);
      i :| 0 <= i < n && xs[..n][i] == Filter(xs, p)[k];
    }
  }

  lemma {:induction false} FilterPositions<T>(xs: seq<T>, p: T -> bool, i: nat, j: nat) returns (k: nat, l: nat)
    requires i < j < |xs| && p(xs[i]) && p(xs[j])
    ensures k < l < |Filter(xs, p)| && Filter(xs, p)[k] == xs[i] && Filter(xs, p)[l] == xs[j]
  {
    var n := |xs| - 1;
    if j < n {
      k, l := FilterPositions(xs[..n], p, i, j);
    } else {
      l := |Filter(xs[..n], p)|;
      k := FilterPosition(xs[..n], p, i);
    }
  }

  lemma {:induction false} FilterPosition<T>(xs: seq<T>, p: T -> bool, i: nat) returns (k: nat)
    requires i < |xs| && p(xs[i])
    ensures k < |Filter(xs, p)| && Filter(xs, p)[k] == xs[i]
  {
    var n := |xs| - 1;
    if i < n {
      k := FilterPosition(xs[..n], p, i);
    } else {
      k := |Filter(xs[..n], p)|;
    }
  }

  function WithKey(es: seq<Entry>, key: string): seq<Entry> {
    Filter(es, (e: Entry) => ResponseKey(e) == key)
  }

  function Selecting(s: CompiledSchema, es: seq<Entry>): seq<Entry> {
    Filter(es, (e: Entry) => HasSelections(s, e))
  }

  /** The selection lists of a bucket's fields, side by side. */
  function Combined(s: CompiledSchema, es: seq<Entry>): seq<Selection> {
    var selecting := Selecting(s, es);
    seq(|selecting|, i requires 0 <= i < |selecting| => assert selecting[i] in selecting; AsInline(s, selecting[i]))
  }

  lemma CombinedTake(s: CompiledSchema, es: seq<Entry>, i: nat)
    requires i < |es|
    ensures Combined(s, es[..i + 1])
            == Combined(s, es[..i]) + (if HasSelections(s, es[i]) then [AsInline(s, es[i])] else [])
  {
    assert es[..i + 1][..i] == es[..i];
  }

  lemma CombinedIsTyped(s: CompiledSchema, es: seq<Entry>)
    ensures AllTyped(Combined(s, es))
  {
  }

  ghost predicate LevelCompatible(s: CompiledSchema, es: seq<Entry>) {
    forall i, j :: 0 <= i < j < |es| && ResponseKey(es[i]) == ResponseKey(es[j]) ==> Compatible(s, es[i], es[j])
  }

  ghost predicate GroupsMerge(s: CompiledSchema, fragments: Fragments, es: seq<Entry>) {
    forall key :: |Combined(s, WithKey(es, key))| >= 2 ==> Mergeable(s, fragments, Combined(s, WithKey(es, key)), "")
  }

  /** A selection list merges exactly when its level is compatible and each
      bucket's selection lists merge, all at once. */
  lemma MergesLevelByLevel(s: CompiledSchema, fragments: Fragments, selections: seq<Selection>, parent: string)
    ensures var es := Collect(fragments, selections, parent, {}).out;
            Mergeable(s, fragments, selections, parent) <==> LevelCompatible(s, es) && GroupsMerge(s, fragments, es)
  {
    var es := Collect(fragments, selections, parent, {}).out;
    CollectIsExact(fragments, selections, parent);
    MergeableIffPairsMerge(s, fragments, selections, parent);
    if Mergeable(s, fragments, selections, parent) {
      MergeableLevels(s, fragments, selections, parent, es);
    }
    if LevelCompatible(s, es) && GroupsMerge(s, fragments, es) {
      forall a, b | Both(a, b, multiset(es)) && ResponseKey(a) == ResponseKey(b)
        ensures PairMerges(s, fragments, a, b)
      {
        LevelsMergeable(s, fragments, es, a, b);
      }
    }
  }

  lemma Reparent(s: CompiledSchema, fragments: Fragments, xs: seq<Selection>, p: string, q: string)
    requires AllTyped(xs)
    ensures Mergeable(s, fragments, xs, p) <==> Mergeable(s, fragments, xs, q)
  {
    TypedIgnoresParent(fragments, xs, p, q);
    MergeableByOccurrences(s, fragments, xs, p, xs, q);
  }

  lemma GroupPair(s: CompiledSchema, es: seq<Entry>, key: string, k: nat, l: nat) returns (i: nat, j: nat)
    requires k < l < |Combined(s, WithKey(es, key))|
    ensures i < j < |es| && ResponseKey(es[i]) == key == ResponseKey(es[j])
    ensures HasSelections(s, es[i]) && HasSelections(s, es[j])
    ensures Combined(s, WithKey(es, key))[k] == AsInline(s, es[i])
    ensures Combined(s, WithKey(es, key))[l] == AsInline(s, es[j])
  {
    var group := WithKey(es, key);
    var selecting := Selecting(s, group);
    assert selecting[k] in selecting && selecting[l] in selecting;
    assert selecting[k] in group && selecting[l] in group;
    i, j := FilterOrigins(group, (e: Entry) => HasSelections(s, e), k, l);
    i, j := FilterOrigins(es, (e: Entry) => ResponseKey(e) == key, i, j);
  }

  lemma MergeableLevels(s: CompiledSchema, fragments: Fragments, selections: seq<Selection>, parent: string,
                        es: seq<Entry>)
    requires Mergeable(s, fragments, selections, parent)
    requires multiset(es) == Occurrences(fragments, selections, parent)
    ensures LevelCompatible(s, es) && GroupsMerge(s, fragments, es)
  {
    forall i, j | 0 <= i < j < |es| && ResponseKey(es[i]) == ResponseKey(es[j]) ensures Compatible(s, es[i], es[j]) {
      BothAtIndices(es, i, j);
      MergeablePair(s, fragments, selections, parent, es[i], es[j]);
    }
    forall key | |Combined(s, WithKey(es, key))| >= 2
      ensures Mergeable(s, fragments, Combined(s, WithKey(es, key)), "")
    {
      var xs := Combined(s, WithKey(es, key));
      forall k, l | 0 <= k < l < |xs| ensures Mergeable(s, fragments, [xs[k], xs[l]], "") {
        var i, j := GroupPair(s, es, key, k, l);
        BothAtIndices(es, i, j);
        MergeablePair(s, fragments, selections, parent, es[i], es[j]);
        Reparent(s, fragments, [xs[k], xs[l]], SubType(s, es[i]), "");
      }
      AllAtOnceIsPairwise(s, fragments, xs, "");
    }
  }

  /** Two selecting fields of one key stand side by side in their bucket. */
  lemma PairInGroup(s: CompiledSchema, es: seq<Entry>, i: nat, j: nat) returns (k: nat, l: nat)
    requires i < j < |es| && ResponseKey(es[i]) == ResponseKey(es[j])
    requires HasSelections(s, es[i]) && HasSelections(s, es[j])
    ensures var xs := Combined(s, WithKey(es, ResponseKey(es[i])));
            k < l < |xs| && xs[k] == AsInline(s, es[i]) && xs[l] == AsInline(s, es[j])
  {
    var key := ResponseKey(es[i]);
    k, l := FilterPositions(es, (e: Entry) => ResponseKey(e) == key, i, j);
    k, l := FilterPositions(WithKey(es, key), (e: Entry) => HasSelections(s, e), k, l);
  }

  lemma LevelsMergeable(s: CompiledSchema, fragments: Fragments, es: seq<Entry>, a: Entry, b: Entry)
    requires LevelCompatible(s, es) && GroupsMerge(s, fragments, es)
    requires Both(a, b, multiset(es)) && ResponseKey(a) == ResponseKey(b)
    ensures PairMerges(s, fragments, a, b)
  {
    var i, j := IndicesOfBoth(es, a, b);
    CompatibleBySignature(s, a, b);
    if HasSelections(s, a) && HasSelections(s, b) {
      InGroupMerges(s, fragments, es, i, j);
      PairSwaps(s, fragments, AsInline(s, a), AsInline(s, b), "");
      Reparent(s, fragments, [AsInline(s, a), AsInline(s, b)], "", SubType(s, a));
    }
  }

  lemma InGroupMerges(s: CompiledSchema, fragments: Fragments, es: seq<Entry>, i: nat, j: nat)
    requires GroupsMerge(s, fragments, es)
    requires i < j < |es| && ResponseKey(es[i]) == ResponseKey(es[j])
    requires HasSelections(s, es[i]) && HasSelections(s, es[j])
    ensures Mergeable(s, fragments, [AsInline(s, es[i]), AsInline(s, es[j])], "")
  {
    var xs := Combined(s, WithKey(es, ResponseKey(es[i])));
    var k, l := PairInGroup(s, es, i, j);
    AllAtOnceIsPairwise(s, fragments, xs, "");
  }

  // ----- The errors of one level -----

  datatype MergeError = FieldsConflict(key: string)

  ghost predicate Clashes(s: CompiledSchema, es: seq<Entry>, i: nat)
    requires i < |es|
  {
    exists j :: 0 <= j < i && ResponseKey(es[j]) == ResponseKey(es[i]) && !Compatible(s, es[i], es[j])
  }

  ghost predicate KeyClashes(s: CompiledSchema, es: seq<Entry>, key: string) {
    exists i :: 0 <= i < |es| && ResponseKey(es[i]) == key && Clashes(s, es, i)
  }

  /** One error per conflicting key, at the first field that conflicts. */
  ghost function LevelErrors(s: CompiledSchema, es: seq<Entry>): seq<MergeError> {
    if es == [] then []
    else
      var n := |es| - 1;
      LevelErrors(s, es[..n])
      + (if Clashes(s, es, n) && !KeyClashes(s, es[..n], ResponseKey(es[n]))
         then [FieldsConflict(ResponseKey(es[n]))] else [])
  }

  lemma {:induction false} LevelErrorKeys(s: CompiledSchema, es: seq<Entry>)
    ensures forall key :: FieldsConflict(key) in LevelErrors(s, es) <==> KeyClashes(s, es, key)
    ensures forall i, j :: 0 <= i < j < |LevelErrors(s, es)| ==> LevelErrors(s, es)[i] != LevelErrors(s, es)[j]
  {
    if es != [] {
      var n := |es| - 1;
      LevelErrorKeys(s, es[..n]);
      forall key ensures KeyClashes(s, es, key) <==>
                         KeyClashes(s, es[..n], key) || (ResponseKey(es[n]) == key && Clashes(s, es, n))
      {
        KeyClashesTake(s, es, n, key);
      }
    }
  }

  lemma KeyClashesTake(s: CompiledSchema, es: seq<Entry>, n: nat, key: string)
    requires n == |es| - 1
    ensures KeyClashes(s, es, key) <==>
            KeyClashes(s, es[..n], key) || (ResponseKey(es[n]) == key && Clashes(s, es, n))
  {
    forall i | 0 <= i < n ensures Clashes(s, es[..n], i) <==> Clashes(s, es, i) {
      if Clashes(s, es, i) {
        var j :| 0 <= j < i && ResponseKey(es[j]) == ResponseKey(es[i]) && !Compatible(s, es[i], es[j]);
        assert es[..n][j] == es[j];
      }
    }
    if KeyClashes(s, es, key) && !(ResponseKey(es[n]) == key && Clashes(s, es, n)) {
      var i :| 0 <= i < |es| && ResponseKey(es[i]) == key && Clashes(s, es, i);
      assert es[..n][i] == es[i];
    }
    if KeyClashes(s, es[..n], key) {
      var i :| 0 <= i < n && ResponseKey(es[..n][i]) == key && Clashes(s, es[..n], i);
      assert es[..n][i] == es[i];
    }
  }

  lemma NoLevelErrorsIffCompatible(s: CompiledSchema, es: seq<Entry>)
    ensures LevelErrors(s, es) == [] <==> LevelCompatible(s, es)
  {
    LevelErrorKeys(s, es);
    if LevelErrors(s, es) == [] {
      assert forall key :: FieldsConflict(key) !in LevelErrors(s, es);
      forall i, j | 0 <= i < j < |es| && ResponseKey(es[i]) == ResponseKey(es[j]) ensures Compatible(s, es[i], es[j]) {
        CompatibleBySignature(s, es[i], es[j]);
        assert !KeyClashes(s, es, ResponseKey(es[j]));
        assert !Clashes(s, es, j);
      }
    } else {
      var key := LevelErrors(s, es)[0].key;
      assert FieldsConflict(key) in LevelErrors(s, es);
      var i :| 0 <= i < |es| && ResponseKey(es[i]) == key && Clashes(s, es, i);
      var j :| 0 <= j < i && ResponseKey(es[j]) == ResponseKey(es[i]) && !Compatible(s, es[i], es[j]);
      CompatibleBySignature(s, es[i], es[j]);
    }
  }

  // ----- How deep merging goes -----

  /** The type the recursion on combined selections starts from. */
  function FirstType(combined: seq<Selection>): string {
    if combined != [] && combined[0].InlineFragment? && combined[0].on.Some? then combined[0].on.value else ""
  }

  /** Merging a selection list recurses fewer than `n` levels deep: every key without
      a clash that has two selection lists or more is entered with all of them. */
  ghost predicate EndsWithin(s: CompiledSchema, fragments: Fragments, selections: seq<Selection>, parent: string,
                             n: nat)
    decreases n, 1
  {
    n > 0 && LowerLevelsEnd(s, fragments, Collect(fragments, selections, parent, {}).out, n - 1)
  }

  ghost predicate LowerLevelsEnd(s: CompiledSchema, fragments: Fragments, es: seq<Entry>, n: nat)
    decreases n, 2
  {
    forall key :: !KeyClashes(s, es, key) && |Combined(s, WithKey(es, key))| >= 2 ==>
      EndsWithin(s, fragments, Combined(s, WithKey(es, key)), FirstType(Combined(s, WithKey(es, key))), n)
  }

  // ----- Buckets -----

  /** `kept` are the comparison representatives, `all` the fields to be merged. */
  datatype Bucket = Bucket(kept: seq<Entry>, all: seq<Entry>, conflicted: bool)

  /** No comparison tells `p` and `q` apart. */
  ghost predicate Interchangeable(s: CompiledSchema, p: Entry, q: Entry) {
    forall e :: Compatible(s, e, p) <==> Compatible(s, e, q)
  }

  ghost predicate HasRepresentative(s: CompiledSchema, kept: seq<Entry>, e: Entry) {
    exists q :: q in kept && Interchangeable(s, e, q)
  }

  ghost predicate Represents(s: CompiledSchema, kept: seq<Entry>, all: seq<Entry>) {
    && (forall e :: e in kept ==> e in all)
    && (forall e :: e in all ==> HasRepresentative(s, kept, e))
  }

  /** The bucket of `key` after the fields `es`. */
  ghost predicate KeyBucketed(s: CompiledSchema, es: seq<Entry>, key: string, buckets: map<string, Bucket>) {
    && (key in buckets <==> WithKey(es, key) != [])
    && (key in buckets ==>
          && (buckets[key].conflicted <==> KeyClashes(s, es, key))
          && (!buckets[key].conflicted ==>
                buckets[key].all == WithKey(es, key) && Represents(s, buckets[key].kept, buckets[key].all)))
  }

  ghost predicate Bucketed(s: CompiledSchema, es: seq<Entry>, buckets: map<string, Bucket>) {
    forall key :: KeyBucketed(s, es, key, buckets)
  }

  function BucketOf(buckets: map<string, Bucket>, key: string): Bucket {
    if key in buckets then buckets[key] else Bucket([], [], false)
  }

  /** A field clashes with a bucket exactly when it clashes with a representative. */
  lemma ClashWithRepresentatives(s: CompiledSchema, e: Entry, kept: seq<Entry>, all: seq<Entry>)
    requires Represents(s, kept, all)
    ensures (exists p :: p in kept && !Compatible(s, e, p)) <==> (exists p :: p in all && !Compatible(s, e, p))
  {
    if p :| p in all && !Compatible(s, e, p) {
      assert HasRepresentative(s, kept, p);
      var q :| q in kept && Interchangeable(s, p, q);
      assert !Compatible(s, e, q);
    }
  }

  lemma ClashesInBucket(s: CompiledSchema, es: seq<Entry>, n: nat)
    requires n < |es|
    ensures Clashes(s, es, n) <==> exists p :: p in WithKey(es[..n], ResponseKey(es[n])) && !Compatible(s, es[n], p)
  {
    var key := ResponseKey(es[n]);
    if Clashes(s, es, n) {
      var j :| 0 <= j < n && ResponseKey(es[j]) == key && !Compatible(s, es[n], es[j]);
      assert es[..n][j] == es[j];
      var k := FilterPosition(es[..n], (e: Entry) => ResponseKey(e) == key, j);
      assert WithKey(es[..n], key)[k] in WithKey(es[..n], key);
    }
  }

  lemma WithKeyTake(es: seq<Entry>, n: nat, key: string)
    requires n < |es|
    ensures WithKey(es[..n + 1], key) == WithKey(es[..n], key) + (if ResponseKey(es[n]) == key then [es[n]] else [])
  {
    assert es[..n + 1][..n] == es[..n];
  }

  lemma OtherBucket(s: CompiledSchema, es: seq<Entry>, n: nat, key: string, buckets: map<string, Bucket>,
                    r: map<string, Bucket>)
    requires n < |es| && KeyBucketed(s, es[..n], key, buckets) && ResponseKey(es[n]) != key
    requires (key in r <==> key in buckets) && (key in r ==> r[key] == buckets[key])
    ensures KeyBucketed(s, es[..n + 1], key, r)
  {
    var es' := es[..n + 1];
    assert es'[..n] == es[..n] && es'[n] == es[n];
    WithKeyTake(es, n, key);
    KeyClashesTake(s, es', n, key);
  }

  /** How a field changes its own bucket: a conflicted bucket is left alone, a
      conflict is recorded, and otherwise the field is added, as a new
      representative unless it repeats one. */
  ghost predicate Added(s: CompiledSchema, e: Entry, bucket: Bucket, r: Bucket) {
    if bucket.conflicted then r == bucket
    else
      && (r.conflicted <==> exists p :: p in bucket.kept && !Compatible(s, e, p))
      && r.all == bucket.all + [e]
      && (!r.conflicted ==>
            || r.kept == bucket.kept + [e]
            || (r.kept == bucket.kept && exists p :: p in bucket.kept && SameSignature(s, e, p)))
  }

  lemma OwnBucket(s: CompiledSchema, es: seq<Entry>, n: nat, buckets: map<string, Bucket>, r: map<string, Bucket>)
    requires n < |es| && KeyBucketed(s, es[..n], ResponseKey(es[n]), buckets)
    requires ResponseKey(es[n]) in r && Added(s, es[n], BucketOf(buckets, ResponseKey(es[n])), r[ResponseKey(es[n])])
    ensures KeyBucketed(s, es[..n + 1], ResponseKey(es[n]), r)
    ensures BucketOf(buckets, ResponseKey(es[n])).conflicted <==> KeyClashes(s, es[..n], ResponseKey(es[n]))
    ensures r[ResponseKey(es[n])].conflicted <==> KeyClashes(s, es[..n], ResponseKey(es[n])) || Clashes(s, es, n)
  {
    var key := ResponseKey(es[n]);
    var bucket := BucketOf(buckets, key);
    var es' := es[..n + 1];
    assert es'[..n] == es[..n] && es'[n] == es[n];
    WithKeyTake(es, n, key);
    KeyClashesTake(s, es', n, key);
    SameClash(s, es, es', n);
    if key !in buckets {
      NoClashWithoutFields(s, es[..n], key);
    }
    if !bucket.conflicted {
      ClashesInBucket(s, es, n);
      ClashWithRepresentatives(s, es[n], bucket.kept, bucket.all);
      if !r[key].conflicted {
        StillRepresents(s, bucket, es[n], r[key].kept);
      }
    }
  }

  lemma SameClash(s: CompiledSchema, es: seq<Entry>, es': seq<Entry>, n: nat)
    requires n < |es| && es' == es[..n + 1]
    ensures Clashes(s, es, n) <==> Clashes(s, es', n)
  {
    ClashesInBucket(s, es, n);
    ClashesInBucket(s, es', n);
    assert es'[..n] == es[..n] && es'[n] == es[n];
  }

  lemma NoClashWithoutFields(s: CompiledSchema, es: seq<Entry>, key: string)
    requires WithKey(es, key) == []
    ensures !KeyClashes(s, es, key)
  {
    if i :| 0 <= i < |es| && ResponseKey(es[i]) == key {
      var k := FilterPosition(es, (e: Entry) => ResponseKey(e) == key, i);
    }
  }

  lemma StillRepresents(s: CompiledSchema, bucket: Bucket, e: Entry, kept: seq<Entry>)
    requires Represents(s, bucket.kept, bucket.all)
    requires kept == bucket.kept + [e]
             || (kept == bucket.kept && exists p :: p in bucket.kept && SameSignature(s, e, p))
    ensures Represents(s, kept, bucket.all + [e])
  {
    forall a | a in bucket.all + [e] ensures HasRepresentative(s, kept, a) {
      if a in bucket.all {
        var q :| q in bucket.kept && Interchangeable(s, a, q);
        assert q in kept;
      } else if kept == bucket.kept + [e] {
        assert e in kept && Interchangeable(s, e, e);
      } else {
        var p :| p in bucket.kept && SameSignature(s, e, p);
        SameSignatureInterchangeable(s, e, p);
        assert p in kept;
      }
    }
  }

  /** Whether a field repeats the representative `p`: both are typed, and name,
      arguments, shape and parent type are the same. */
  predicate SameSignature(s: CompiledSchema, e: Entry, p: Entry) {
    && e.field.name == p.field.name
    && ArgumentsEqual(e.field.arguments, p.field.arguments)
    && EntryType(s, e).Some? && EntryType(s, p).Some?
    && SameResponseShape(s, EntryType(s, e).value, EntryType(s, p).value)
    && e.parent == p.parent
  }

  lemma SameSignatureInterchangeable(s: CompiledSchema, p: Entry, q: Entry)
    requires SameSignature(s, p, q)
    ensures Interchangeable(s, p, q)
  {
    ArgumentsEqualIffSameNormalForm(p.field.arguments, q.field.arguments);
    SameResponseShapeIffSameShape(s, EntryType(s, p).value, EntryType(s, q).value);
    forall e ensures Compatible(s, e, p) <==> Compatible(s, e, q) {
      CompatibleBySignature(s, e, p);
      CompatibleBySignature(s, e, q);
    }
  }

  // ----- The imperative validator -----

  class FieldCollector {
    const fragments: Fragments
    var out: seq<Entry>
    var visited: set<string>

    constructor (fragments: Fragments)
      ensures this.fragments == fragments && out == [] && visited == {}
    {
      this.fragments := fragments;
      out, visited := [], {};
    }

    /** Appends the fields of a selection list, following fragments not yet visited. */
    method CollectFields(selections: seq<Selection>, parent: string)
      modifies this
      ensures out == old(out) + Collect(fragments, selections, parent, old(visited)).out
      ensures visited == Collect(fragments, selections, parent, old(visited)).visited
      decreases fragments.Keys - visited, selections
    {
      ghost var whole := Collect(fragments, selections, parent, visited);
      var i := 0;
      while i < |selections|
        invariant 0 <= i <= |selections|
        invariant old(visited) <= visited
        invariant out + Collect(fragments, selections[i..], parent, visited).out == old(out) + whole.out
        invariant Collect(fragments, selections[i..], parent, visited).visited == whole.visited
      {
        assert selections[i..][1..] == selections[i + 1..];
        ghost var first := CollectOne(fragments, selections[i], parent, visited);
        ghost var before := out;
        match selections[i] {
          case Field(_, _, _, _, _) =>
            out := out + [Entry(selections[i], parent)];
          case InlineFragment(on, _, nested) =>
            CollectFields(nested, TargetType(on, parent));
          case FragmentSpread(name, _) =>
            if name !in visited && name in fragments {
              assert name in fragments.Keys - visited;
              visited := visited + {name};
              CollectFields(fragments[name].selections, fragments[name].on);
            }
        }
        assert out == before + first.out;
        i := i + 1;
      }
    }
  }

  class MergeValidator {
    const schema: CompiledSchema
    const fragments: Fragments
    var errors: seq<MergeError>

    constructor (schema: CompiledSchema, fragments: Fragments)
      ensures this.schema == schema && this.fragments == fragments && errors == []
    {
      this.schema, this.fragments := schema, fragments;
      errors := [];
    }

    /** Compares a field with a bucket's representatives, up to the first conflict. */
    method CompareWithKept(e: Entry, kept: seq<Entry>) returns (conflict: bool, keep: bool)
      ensures conflict <==> exists p :: p in kept && !Compatible(schema, e, p)
      ensures !conflict ==> (keep <==> forall p :: p in kept ==> !SameSignature(schema, e, p))
    {
      conflict, keep := false, true;
      for j := 0 to |kept|
        invariant !conflict && forall i :: 0 <= i < j ==> Compatible(schema, e, kept[i])
        invariant keep <==> forall i :: 0 <= i < j ==> !SameSignature(schema, e, kept[i])
      {
        if !Compatible(schema, e, kept[j]) {
          return true, false;
        }
        if SameSignature(schema, e, kept[j]) {
          keep := false;
        }
      }
    }

    /** Puts one field into its bucket and reports the bucket's first conflict. */
    method AddToBucket(ghost es: seq<Entry>, ghost n: nat, e: Entry, buckets: map<string, Bucket>)
      returns (r: map<string, Bucket>)
      requires n < |es| && es[n] == e && Bucketed(schema, es[..n], buckets)
      modifies this
      ensures Bucketed(schema, es[..n + 1], r)
      ensures errors == old(errors) + (if Clashes(schema, es, n) && !KeyClashes(schema, es[..n], ResponseKey(e))
                                       then [FieldsConflict(ResponseKey(e))] else [])
    {
      var key := ResponseKey(e);
      var bucket := BucketOf(buckets, key);
      assert KeyBucketed(schema, es[..n], key, buckets);
      r := buckets;
      if !bucket.conflicted {
        var conflict, keep := CompareWithKept(e, bucket.kept);
        if conflict {
          errors := errors + [FieldsConflict(key)];
        }
        var kept := if keep then bucket.kept + [e] else bucket.kept;
        r := buckets[key := Bucket(kept, bucket.all + [e], conflict)];
      }
      assert Added(schema, e, bucket, r[key]);
      OwnBucket(schema, es, n, buckets, r);
      ghost var es' := es[..n + 1];
      forall k | k != key ensures KeyBucketed(schema, es', k, r) {
        assert KeyBucketed(schema, es[..n], k, buckets);
        OtherBucket(schema, es, n, k, buckets, r);
      }
    }

    /** A bucket's selection lists as inline fragments on the fields' named types. */
    method Combine(es: seq<Entry>) returns (combined: seq<Selection>, firstType: Option<string>)
      ensures combined == Combined(schema, es)
      ensures firstType == if combined == [] then None else Some(FirstType(combined))
    {
      combined, firstType := [], None;
      for i := 0 to |es|
        invariant combined == Combined(schema, es[..i])
        invariant firstType == if combined == [] then None else Some(FirstType(combined))
      {
        if HasSelections(schema, es[i]) {
          var inline := AsInline(schema, es[i]);
          if firstType.None? {
            firstType := inline.on;
          }
          combined := combined + [inline];
        }
        CombinedTake(schema, es, i);
      }
      assert es[..|es|] == es;
    }

    /** Puts every field into its bucket, reporting one error per conflicting key. */
    method FillBuckets(es: seq<Entry>) returns (buckets: map<string, Bucket>)
      modifies this
      ensures Bucketed(schema, es, buckets)
      ensures errors == old(errors) + LevelErrors(schema, es)
    {
      buckets := map[];
      for i := 0 to |es|
        invariant Bucketed(schema, es[..i], buckets)
        invariant errors == old(errors) + LevelErrors(schema, es[..i])
      {
        assert es[..i + 1][..i] == es[..i];
        SameClash(schema, es, es[..i + 1], i);
        buckets := AddToBucket(es, i, es[i], buckets);
      }
      assert es[..|es|] == es;
    }

    /** Collects the fields of a selection list into buckets. */
    method CollectIntoBuckets(selections: seq<Selection>, parent: string) returns (buckets: map<string, Bucket>)
      modifies this
      ensures Bucketed(schema, Collect(fragments, selections, parent, {}).out, buckets)
      ensures errors == old(errors) + LevelErrors(schema, Collect(fragments, selections, parent, {}).out)
    {
      var collector := new FieldCollector(fragments);
      collector.CollectFields(selections, parent);
      assert collector.out == Collect(fragments, selections, parent, {}).out;
      buckets := FillBuckets(collector.out);
    }

    ghost predicate BucketMerges(bucket: Bucket) {
      !bucket.conflicted && |Combined(schema, bucket.all)| >= 2
      ==> Mergeable(schema, fragments, Combined(schema, bucket.all), "")
    }

    /** What the recursion needs to end: a bucket's selection lists do, `n` levels down. */
    ghost predicate BucketEnds(bucket: Bucket, n: nat) {
      !bucket.conflicted && |Combined(schema, bucket.all)| >= 2 ==>
        EndsWithin(schema, fragments, Combined(schema, bucket.all), FirstType(Combined(schema, bucket.all)), n)
    }

    /** Merges the selection lists of one bucket with a single recursive call. */
    method MergeBucket(bucket: Bucket, ghost n: nat)
      requires BucketEnds(bucket, n)
      modifies this
      ensures old(errors) <= errors
      ensures errors == old(errors) <==> BucketMerges(bucket)
      decreases n, 3
    {
      if bucket.conflicted || |bucket.all| < 2 {
        return;
      }
      var combined, firstType := Combine(bucket.all);
      if |combined| > 1 && firstType.Some? {
        ValidateFieldMerging(combined, firstType.value, n);
        CombinedIsTyped(schema, bucket.all);
        Reparent(schema, fragments, combined, firstType.value, "");
      }
    }

    /** Merges the selection lists of every bucket, in any order. */
    method MergeBuckets(buckets: map<string, Bucket>, ghost n: nat)
      requires forall key :: key in buckets ==> BucketEnds(buckets[key], n)
      modifies this
      ensures old(errors) <= errors
      ensures errors == old(errors) <==> forall key :: key in buckets ==> BucketMerges(buckets[key])
      decreases n, 4
    {
      var keys := buckets.Keys;
      while keys != {}
        invariant old(errors) <= errors && keys <= buckets.Keys
        invariant errors == old(errors) <==> forall key :: key in buckets && key !in keys ==> BucketMerges(buckets[key])
        decreases keys
      {
        var key :| key in keys;
        MergeBucket(buckets[key], n);
        keys := keys - {key};
      }
    }

    /** Validates a selection list: reports one error per conflicting key of this
        level, then merges the selection lists of every other key, in any order. It is
        stated wherever the recursion ends, within any number of levels. */
    method ValidateFieldMerging(selections: seq<Selection>, parent: string, ghost n: nat)
      requires EndsWithin(schema, fragments, selections, parent, n)
      modifies this
      ensures old(errors) + LevelErrors(schema, Collect(fragments, selections, parent, {}).out) <= errors
      ensures errors == old(errors) <==> Mergeable(schema, fragments, selections, parent)
      decreases n, 2
    {
      ghost var es := Collect(fragments, selections, parent, {}).out;
      var buckets := CollectIntoBuckets(selections, parent);
      BucketsEnd(es, buckets, n - 1);
      MergeBuckets(buckets, n - 1);
      LevelDecides(selections, parent, es, buckets);
    }

    lemma LevelDecides(selections: seq<Selection>, parent: string, es: seq<Entry>, buckets: map<string, Bucket>)
      requires es == Collect(fragments, selections, parent, {}).out && Bucketed(schema, es, buckets)
      ensures Mergeable(schema, fragments, selections, parent) <==>
              LevelErrors(schema, es) == [] && forall key :: key in buckets ==> BucketMerges(buckets[key])
    {
      MergesLevelByLevel(schema, fragments, selections, parent);
      NoLevelErrorsIffCompatible(schema, es);
      if LevelErrors(schema, es) == [] {
        BucketsAreGroups(es, buckets);
      }
    }

    lemma BucketsEnd(es: seq<Entry>, buckets: map<string, Bucket>, n: nat)
      requires Bucketed(schema, es, buckets) && LowerLevelsEnd(schema, fragments, es, n)
      ensures forall key :: key in buckets ==> BucketEnds(buckets[key], n)
    {
      forall key | key in buckets ensures BucketEnds(buckets[key], n) {
        assert KeyBucketed(schema, es, key, buckets);
      }
    }

    /** With no conflict at this level, the buckets are exactly the groups to merge. */
    lemma BucketsAreGroups(es: seq<Entry>, buckets: map<string, Bucket>)
      requires Bucketed(schema, es, buckets) && LevelErrors(schema, es) == []
      ensures (forall key :: key in buckets ==> BucketMerges(buckets[key])) <==> GroupsMerge(schema, fragments, es)
    {
      LevelErrorKeys(schema, es);
      forall key ensures KeyBucketed(schema, es, key, buckets) && !KeyClashes(schema, es, key) {
        assert FieldsConflict(key) !in LevelErrors(schema, es);
      }
      forall key | key in buckets
        ensures buckets[key].all == WithKey(es, key) && !buckets[key].conflicted
      {
        assert KeyBucketed(schema, es, key, buckets);
      }
      if forall key :: key in buckets ==> BucketMerges(buckets[key]) {
        forall key | |Combined(schema, WithKey(es, key))| >= 2
          ensures Mergeable(schema, fragments, Combined(schema, WithKey(es, key)), "")
        {
          assert KeyBucketed(schema, es, key, buckets);
          EmptyCombined(key);
          assert BucketMerges(buckets[key]);
        }
      }
    }

    lemma EmptyCombined(key: string)
      ensures Combined(schema, []) == []
    {
    }
  }
}
