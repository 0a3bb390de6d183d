/**
  Listing decodes every stored value into one variable that is never reset, and
  copies that variable into the result.  A dropped field therefore shows what an
  earlier value left behind, and a label map, once made, is shared by every later
  item and merged into by every later value.
 */
module Listing {
  import opened Wrappers
  import opened Codec
  import opened InMemory

  type Selector = Labels -> bool

  function FieldsOf(v: Value): Fields {
    match v.data
    case Json(f) => f
    case NotJson => Marshal(ZERO_REPORT)
  }

  predicate AllJson(vals: seq<Value>) {
    forall v :: v in vals ==> v.data.Json?
  }

  /** The reused variable after the first `n` values. */
  function Leftover(vals: seq<Value>, n: nat): Report
    requires n <= |vals|
  {
    if n == 0 then ZERO_REPORT else Fill(FieldsOf(vals[n - 1]), Leftover(vals, n - 1))
  }

  /** Item `i` once the loop is over: its label map, if it has one, is the shared one. */
  function ItemAt(vals: seq<Value>, i: nat): Report
    requires i < |vals|
  {
    var copy := Leftover(vals, i + 1);
    copy.(labels := if copy.labels == None then None else Leftover(vals, |vals|).labels)
  }

  function Items(vals: seq<Value>): seq<Report> {
    seq(|vals|, i requires 0 <= i < |vals| => ItemAt(vals, i))
  }

  /** The items that the selector admits, in order; an unlabelled item is not asked. */
  function Filter(items: seq<Report>, selector: Selector): seq<Report> {
    if |items| == 0 then []
    else
      var last := items[|items| - 1];
      Filter(items[..|items| - 1], selector) +
      if last.labels.Some? && selector(last.labels.value) then [last] else []
  }

  lemma FilterSnoc(items: seq<Report>, last: Report, selector: Selector)
    ensures Filter(items + [last], selector) ==
            Filter(items, selector) + if last.labels.Some? && selector(last.labels.value) then [last] else []
  {
    assert (items + [last])[..|items|] == items;
  }

  predicate AllLabelled(items: seq<Report>) {
    forall i :: 0 <= i < |items| ==> items[i].labels.Some?
  }

  /** One unlabelled item makes the selector be dropped altogether. */
  function Select(items: seq<Report>, selector: Selector): seq<Report> {
    if AllLabelled(items) then Filter(items, selector) else items
  }

  // ----- The loop itself, with the label map on the heap -----

  class LabelMap {
    var entries: Labels

    constructor (entries: Labels)
      ensures this.entries == entries
    {
      this.entries := entries;
    }
  }

  /** A report as a struct: copying it copies the reference to its label map. */
  datatype ReportStruct = ReportStruct(name: string, namespace: string, uid: string, resourceVersion: string,
                                       created: Time, labels: LabelMap?, body: string)

  function View(s: ReportStruct): Report
    reads s.labels
  {
    Report(s.name, s.namespace, s.uid, s.resourceVersion, s.created,
           if s.labels == null then None else Some(s.labels.entries), s.body)
  }

  function Views(items: seq<ReportStruct>): seq<Report>
    reads set i | 0 <= i < |items| :: items[i].labels
  {
    seq(|items|, i requires 0 <= i < |items|
                 reads (set j | 0 <= j < |items| :: items[j].labels) => View(items[i]))
  }

  method FillStruct(f: Fields, into: ReportStruct) returns (res: ReportStruct)
    modifies into.labels
    ensures View(res) == old(Fill(f, View(into)))
    ensures into.labels != null ==> res.labels == into.labels
    ensures into.labels == null ==> res.labels == null || fresh(res.labels)
  {
    var labels := into.labels;
    if f.labels.Some? {
      if labels == null {
        labels := new LabelMap(f.labels.value);
      } else {
        labels.entries := labels.entries + f.labels.value;
      }
    }
    res := ReportStruct(Overwrite(f.name, into.name), Overwrite(f.namespace, into.namespace),
                        Overwrite(f.uid, into.uid), Overwrite(f.resourceVersion, into.resourceVersion),
                        match f.created case None => 0 case Some(s) => s * SECOND,
                        labels, Overwrite(f.body, into.body));
  }

  /** Decodes all values into one variable; a value that is not a report fails the whole listing. */
  method DecodeAll(vals: seq<Value>) returns (res: Option<seq<ReportStruct>>)
    ensures res.Some? <==> AllJson(vals)
    ensures res.Some? ==> Views(res.value) == Items(vals)
  {
    var report := ReportStruct("", "", "", "", 0, null, "");
    var items: seq<ReportStruct> := [];
    var i := 0;
    while i < |vals|
      invariant i == |items| <= |vals|
      invariant AllJson(vals[..i])
      invariant report.labels == null || fresh(report.labels)
      invariant View(report) == Leftover(vals, i)
      invariant forall j :: 0 <= j < i ==>
                  var copy := Leftover(vals, j + 1);
                  && items[j].labels == (if copy.labels == None then null else report.labels)
                  && (copy.labels.Some? ==> report.labels != null)
                  && View(items[j].(labels := null)) == copy.(labels := None)
    {
      match vals[i].data {
        case NotJson =>
          return None;
        case Json(f) =>
          report := FillStruct(f, report);
      }
      items := items + [report];
      i := i + 1;
      assert vals[..i] == vals[..i - 1] + [vals[i - 1]];
    }
    assert vals[..i] == vals;
    forall j | 0 <= j < i
      ensures View(items[j]) == ItemAt(vals, j)
    {
      assert View(items[j].(labels := null)) == Leftover(vals, j + 1).(labels := None);
    }
    res := Some(items);
  }

  lemma ViewsSnoc(items: seq<ReportStruct>, last: ReportStruct)
    ensures Views(items + [last]) == Views(items) + [View(last)]
  {
  }

  lemma AllLabelledSnoc(items: seq<Report>, last: Report)
    requires AllLabelled(items) && last.labels.Some?
    ensures AllLabelled(items + [last])
  {
  }

  /** The selection loop: it gives up and returns everything at the first unlabelled item. */
  method SelectItems(list: seq<ReportStruct>, selector: Selector) returns (res: seq<ReportStruct>)
    ensures forall s :: s in res ==> s in list
    ensures Views(res) == Select(Views(list), selector)
  {
    res := [];
    ghost var shown := Views(list);
    var i := 0;
    while i < |list|
      invariant 0 <= i <= |list|
      invariant forall s :: s in res ==> s in list
      invariant Views(list) == shown && AllLabelled(shown[..i])
      invariant Views(res) == Filter(shown[..i], selector)
    {
      var item := list[i];
      assert shown[i] == View(item);
      if item.labels == null {
        assert shown[i].labels == None && !AllLabelled(shown);
        return list;
      }
      assert shown[..i + 1] == shown[..i] + [View(item)];
      FilterSnoc(shown[..i], View(item), selector);
      AllLabelledSnoc(shown[..i], View(item));
      if selector(item.labels.entries) {
        ViewsSnoc(res, item);
        res := res + [item];
      }
      i := i + 1;
    }
    assert shown[..i] == shown;
  }

  // ----- What a listing shows -----

  /** All label maps of the listed values, laid over each other in order. */
  function Merged(vals: seq<Value>): Option<Labels> {
    if |vals| == 0 then None
    else MergeLabels(FieldsOf(vals[|vals| - 1]).labels, Merged(vals[..|vals| - 1]))
  }

  lemma {:induction false} LeftoverPrefix(vals: seq<Value>, m: nat, n: nat)
    requires n <= m <= |vals|
    ensures Leftover(vals[..m], n) == Leftover(vals, n)
  {
    if n > 0 {
      LeftoverPrefix(vals, m, n - 1);
    }
  }

  lemma {:induction false} LeftoverLabels(vals: seq<Value>)
    ensures Leftover(vals, |vals|).labels == Merged(vals)
  {
    if |vals| > 0 {
      LeftoverPrefix(vals, |vals| - 1, |vals| - 1);
      LeftoverLabels(vals[..|vals| - 1]);
    }
  }

  /** Some value up to position `i` was stored with labels. */
  ghost predicate LabelledBy(vals: seq<Value>, i: nat)
    requires i < |vals|
  {
    exists j :: 0 <= j <= i && FieldsOf(vals[j]).labels.Some?
  }

  lemma {:induction false} LabelledFrom(vals: seq<Value>, i: nat)
    requires i < |vals|
    ensures Leftover(vals, i + 1).labels.Some? <==> LabelledBy(vals, i)
  {
    if i > 0 {
      LabelledFrom(vals, i - 1);
    }
  }

  /** Every item from the first labelled value on shows the same map: the merge of all the label maps listed. */
  lemma LabelsAreShared(vals: seq<Value>, i: nat)
    requires i < |vals|
    ensures Items(vals)[i].labels == if LabelledBy(vals, i) then Merged(vals) else None
    ensures LabelledBy(vals, i) ==> Merged(vals).Some?
  {
    LabelledFrom(vals, i);
    LabelledFrom(vals, |vals| - 1);
    LeftoverLabels(vals);
    assert LabelledBy(vals, i) ==> LabelledBy(vals, |vals| - 1);
  }

  // ----- What carries over from one item to the next -----

  type Field = Fields -> Option<string>

  const BODY: Field := (f: Fields) => f.body
  const UID: Field := (f: Fields) => f.uid
  const NAME: Field := (f: Fields) => f.name
  const NAMESPACE: Field := (f: Fields) => f.namespace
  const VERSION: Field := (f: Fields) => f.resourceVersion

  /** Of the values up to position `i`, that at `j` is the last to have the field. */
  ghost predicate LastWith(vals: seq<Value>, j: int, i: int, field: Field)
    requires 0 <= j <= i < |vals|
  {
    field(FieldsOf(vals[j])).Some? && forall k :: j < k <= i ==> field(FieldsOf(vals[k])).None?
  }

  ghost predicate NoneWith(vals: seq<Value>, i: nat, field: Field)
    requires i < |vals|
  {
    forall k :: 0 <= k <= i ==> field(FieldsOf(vals[k])).None?
  }

  /** Every item shows, in each string field, what the last value up to it said there, even if its own says nothing. */
  lemma {:induction false} CarriesOver(vals: seq<Value>, j: nat, i: nat)
    requires j <= i < |vals|
    ensures var item, f := Items(vals)[i], FieldsOf(vals[j]);
            && (LastWith(vals, j, i, BODY) ==> item.body == f.body.value)
            && (LastWith(vals, j, i, UID) ==> item.uid == f.uid.value)
            && (LastWith(vals, j, i, NAME) ==> item.name == f.name.value)
            && (LastWith(vals, j, i, NAMESPACE) ==> item.namespace == f.namespace.value)
            && (LastWith(vals, j, i, VERSION) ==> item.resourceVersion == f.resourceVersion.value)
    decreases i - j
  {
    if j < i {
      CarriesOver(vals, j, i - 1);
    }
  }

  /** Where no value up to an item has a field, the item shows it empty. */
  lemma {:induction false} CarriesNothing(vals: seq<Value>, i: nat)
    requires i < |vals|
    ensures var item := Items(vals)[i];
            && (NoneWith(vals, i, BODY) ==> item.body == "")
            && (NoneWith(vals, i, UID) ==> item.uid == "")
            && (NoneWith(vals, i, NAME) ==> item.name == "")
            && (NoneWith(vals, i, NAMESPACE) ==> item.namespace == "")
            && (NoneWith(vals, i, VERSION) ==> item.resourceVersion == "")
  {
    var f := FieldsOf(vals[i]);
    assert NoneWith(vals, i, BODY) ==> BODY(f).None?;
    assert NoneWith(vals, i, UID) ==> UID(f).None?;
    assert NoneWith(vals, i, NAME) ==> NAME(f).None?;
    assert NoneWith(vals, i, NAMESPACE) ==> NAMESPACE(f).None?;
    assert NoneWith(vals, i, VERSION) ==> VERSION(f).None?;
    assert Leftover(vals, i + 1) == Fill(f, Leftover(vals, i));
    if i > 0 {
      CarriesNothing(vals, i - 1);
    } else {
      assert Leftover(vals, 0) == ZERO_REPORT;
    }
  }

  /** Times do not carry over: an item shows its own, or none. */
  lemma TimesAreOwn(vals: seq<Value>, i: nat)
    requires i < |vals|
    ensures var own := FieldsOf(vals[i]).created;
            Items(vals)[i].created == if own.Some? then own.value * 1_000_000_000 else 0
  {
  }

  predicate HasLabel(v: Value, a: string) {
    FieldsOf(v).labels.Some? && a in FieldsOf(v).labels.value
  }

  /** Of the values that have a label, the last one gives its value in the merge. */
  lemma {:induction false} LastLabelWins(vals: seq<Value>, i: nat, a: string)
    requires i < |vals| && HasLabel(vals[i], a) && forall k :: i < k < |vals| ==> !HasLabel(vals[k], a)
    ensures Merged(vals).Some? && a in Merged(vals).value
    ensures Merged(vals).value[a] == FieldsOf(vals[i]).labels.value[a]
  {
    var n := |vals| - 1;
    if i < n {
      assert !HasLabel(vals[n], a);
      LastLabelWins(vals[..n], i, a);
    }
  }

  /** A label in the merge is one that some value has. */
  lemma {:induction false} MergedLabelsAreStored(vals: seq<Value>, a: string)
    requires Merged(vals).Some? && a in Merged(vals).value
    ensures exists i :: 0 <= i < |vals| && HasLabel(vals[i], a)
  {
    var n := |vals| - 1;
    if !HasLabel(vals[n], a) {
      MergedLabelsAreStored(vals[..n], a);
      var i :| 0 <= i < n && HasLabel(vals[..n][i], a);
      assert HasLabel(vals[i], a);
    }
  }

  lemma {:induction false} FilterUniform(items: seq<Report>, selector: Selector, verdict: bool)
    requires AllLabelled(items)
    requires forall i :: 0 <= i < |items| ==> selector(items[i].labels.value) == verdict
    ensures Filter(items, selector) == if verdict then items else []
  {
    if |items| > 0 {
      FilterUniform(items[..|items| - 1], selector, verdict);
    }
  }

  /** The one verdict that decides a whole listing. */
  predicate Verdict(vals: seq<Value>, selector: Selector) {
    |vals| == 0 || FieldsOf(vals[0]).labels == None || Merged(vals) == None || selector(Merged(vals).value)
  }

  /**
    Whatever the selector, a listing returns every stored report or none: all of
    them exactly when the first value walked over is unlabelled or the selector
    admits the merge of all the label maps.
   */
  lemma AllOrNothing(vals: seq<Value>, selector: Selector)
    ensures Select(Items(vals), selector) == if Verdict(vals, selector) then Items(vals) else []
  {
    var items := Items(vals);
    forall i | 0 <= i < |items|
      ensures FieldsOf(vals[0]).labels.Some? ==> items[i].labels.Some? && items[i].labels == Merged(vals)
    {
      LabelsAreShared(vals, i);
    }
    if |vals| > 0 && FieldsOf(vals[0]).labels == None {
      LabelsAreShared(vals, 0);
    } else if |vals| > 0 {
      LabelsAreShared(vals, 0);
      FilterUniform(items, selector, selector(Merged(vals).value));
    }
  }

  lemma {:induction false} SameNamespace(vals: seq<Value>, n: nat, ns: string)
    requires n <= |vals|
    requires forall i :: 0 <= i < n ==> Decode(FieldsOf(vals[i])).namespace == ns
    ensures n > 0 ==> Leftover(vals, n).namespace == ns
    ensures n == 0 || ns == "" ==> Leftover(vals, n).namespace == ""
  {
    if n > 0 {
      SameNamespace(vals, n - 1, ns);
    }
  }

  // ----- What a selector promises -----

  /** The labels that a value itself was stored with; nil labels are the empty set. */
  function OwnLabels(v: Value): Labels {
    match FieldsOf(v).labels case None => map[] case Some(m) => m
  }

  /** Whether the selector admits what value `v` itself was stored with. */
  predicate Admits(selector: Selector, v: Value) {
    selector(OwnLabels(v))
  }

  /** The positions that a listing by labels promises to return. */
  ghost function Promised(vals: seq<Value>, selector: Selector): set<nat> {
    set i: nat | i < |vals| && Admits(selector, vals[i])
  }

  /** The positions that it returns: those whose item is in the result. */
  ghost function Returned(vals: seq<Value>, selector: Selector): set<nat> {
    set i: nat | i < |vals| && Items(vals)[i] in Select(Items(vals), selector)
  }

  /** On one walk the promise is kept exactly when every value's own verdict is the one verdict of the whole listing. */
  lemma PromiseKeptExactly(vals: seq<Value>, selector: Selector)
    ensures Returned(vals, selector) == Promised(vals, selector) <==>
            forall i :: 0 <= i < |vals| ==> Admits(selector, vals[i]) == Verdict(vals, selector)
  {
    AllOrNothing(vals, selector);
    var items := Items(vals);
    forall i: nat | i < |vals|
      ensures i in Returned(vals, selector) <==> Verdict(vals, selector)
    {
      assert items[i] in items;
    }
    if Returned(vals, selector) == Promised(vals, selector) {
      forall i | 0 <= i < |vals|
        ensures Admits(selector, vals[i]) == Verdict(vals, selector)
      {
        var p: nat := i;
        assert p in Returned(vals, selector) <==> p in Promised(vals, selector);
      }
    }
  }

  /** `u` is the union of the label maps stored under `prefix`, which agree wherever they share a label. */
  ghost predicate Unites(u: Labels, db: Db, prefix: string) {
    && (forall k :: k in db && prefix <= k ==> Within(OwnLabels(db[k]), u))
    && (forall a :: a in u ==> exists k :: k in db && prefix <= k && a in OwnLabels(db[k]))
  }

  predicate Within(m: Labels, u: Labels) {
    forall a :: a in m ==> a in u && u[a] == m[a]
  }

  function Laid(vals: seq<Value>): Labels {
    match Merged(vals) case None => map[] case Some(m) => m
  }

  lemma {:induction false} LaidIsWithin(vals: seq<Value>, u: Labels)
    requires forall i :: 0 <= i < |vals| ==> Within(OwnLabels(vals[i]), u)
    ensures Within(Laid(vals), u)
    ensures forall i :: 0 <= i < |vals| ==> Within(OwnLabels(vals[i]), Laid(vals))
  {
    if |vals| > 0 {
      var n := |vals| - 1;
      LaidIsWithin(vals[..n], u);
      forall i | 0 <= i < |vals|
        ensures Within(OwnLabels(vals[i]), Laid(vals))
      {
        assert i < n ==> vals[..n][i] == vals[i] && Within(OwnLabels(vals[i]), Laid(vals[..n]));
      }
    }
  }

  lemma SameLabels(m: Labels, u: Labels)
    requires Within(m, u) && Within(u, m)
    ensures m == u
  {
  }

  /** Whatever the walk, label maps that agree are merged into their union. */
  lemma MergedIsUnion(db: Db, prefix: string, u: Labels, order: seq<string>)
    requires Unites(u, db, prefix) && Enumerates(order, db, prefix)
    ensures Laid(ValuesAt(db, order)) == u
  {
    var vals := ValuesAt(db, order);
    forall i | 0 <= i < |vals|
      ensures Within(OwnLabels(vals[i]), u)
    {
      assert order[i] in order && Within(OwnLabels(db[order[i]]), u);
    }
    LaidIsWithin(vals, u);
    forall a | a in u
      ensures a in Laid(vals)
    {
      var k :| k in db && prefix <= k && a in OwnLabels(db[k]);
      assert k in order;
      var i :| 0 <= i < |order| && order[i] == k;
      assert Within(OwnLabels(vals[i]), Laid(vals));
    }
    SameLabels(Laid(vals), u);
  }

  lemma {:induction false} MergedSome(vals: seq<Value>, i: nat)
    requires i < |vals| && FieldsOf(vals[i]).labels.Some?
    ensures Merged(vals).Some?
  {
    if i < |vals| - 1 {
      MergedSome(vals[..|vals| - 1], i);
    }
  }

  /** The verdict of a walk whose first value is unlabelled is yes; otherwise the selector gives it on the merge. */
  lemma VerdictOfWalk(vals: seq<Value>, selector: Selector)
    requires |vals| > 0
    ensures Verdict(vals, selector) <==> FieldsOf(vals[0]).labels == None || selector(Laid(vals))
  {
    if FieldsOf(vals[0]).labels.Some? {
      MergedSome(vals, 0);
    }
  }

  lemma WalkOver(keys: set<string>) returns (order: seq<string>)
    ensures Distinct(order) && forall k :: k in order <==> k in keys
    decreases |keys|
  {
    if keys == {} {
      order := [];
    } else {
      var k :| k in keys;
      var rest := WalkOver(keys - {k});
      order := [k] + rest;
    }
  }

  /** The database may begin a walk at any key. */
  lemma WalkFrom(db: Db, prefix: string, first: string) returns (order: seq<string>)
    requires first in db && prefix <= first
    ensures Enumerates(order, db, prefix) && |order| > 0 && order[0] == first
  {
    var rest := WalkOver((set k | k in db && prefix <= k) - {first});
    order := [first] + rest;
  }

  lemma {:induction false} MergedFront(v: Value, vals: seq<Value>)
    requires FieldsOf(v).labels == None
    ensures Merged([v] + vals) == Merged(vals)
  {
    var n := |vals| - 1;
    if n < 0 {
      assert ([v] + vals)[..0] == [];
    } else {
      assert ([v] + vals)[..n + 1] == [v] + vals[..n];
      MergedFront(v, vals[..n]);
    }
  }

  /** A walk with its first key moved to the end is a walk. */
  lemma Rotated(order: seq<string>)
    requires Distinct(order) && |order| > 0
    ensures var later := order[1..] + [order[0]];
            Distinct(later) && forall k :: k in later <==> k in order
  {
    var later := order[1..] + [order[0]];
    forall i, j | 0 <= i < j < |later|
      ensures later[i] != later[j]
    {
      assert later[i] == order[i + 1] && later[j] == if j + 1 < |order| then order[j + 1] else order[0];
    }
    forall k
      ensures k in later <==> k in order
    {
      assert k in order <==> k == order[0] || k in order[1..];
    }
  }

  /** An unlabelled value may be walked over last instead of first. */
  lemma Postponed(db: Db, prefix: string, order: seq<string>)
    requires Enumerates(order, db, prefix) && |order| > 0 && order[0] in db && FieldsOf(db[order[0]]).labels == None
    ensures var later := order[1..] + [order[0]];
            Enumerates(later, db, prefix) && Laid(ValuesAt(db, later)) == Laid(ValuesAt(db, order))
  {
    var later := order[1..] + [order[0]];
    var v, vals := db[order[0]], ValuesAt(db, order)[1..];
    Rotated(order);
    assert ValuesAt(db, order) == [v] + vals && ValuesAt(db, later) == vals + [v];
    assert (vals + [v])[..|vals|] == vals;
    MergedFront(v, vals);
  }

  /** The same labels are merged by some walk that begins with a labelled value. */
  lemma {:induction false} BeginLabelled(db: Db, prefix: string, order: seq<string>, i: nat) returns (walk: seq<string>)
    requires Enumerates(order, db, prefix) && i < |order| && order[i] in db && FieldsOf(db[order[i]]).labels.Some?
    ensures Enumerates(walk, db, prefix) && |walk| > 0 && walk[0] in db && FieldsOf(db[walk[0]]).labels.Some?
    ensures Laid(ValuesAt(db, walk)) == Laid(ValuesAt(db, order))
    decreases i
  {
    assert order[0] in order;
    if FieldsOf(db[order[0]]).labels.Some? {
      walk := order;
    } else {
      Postponed(db, prefix, order);
      walk := BeginLabelled(db, prefix, order[1..] + [order[0]], i - 1);
    }
  }

  /** The walk returns what listing by labels promises. */
  ghost predicate Keeps(db: Db, order: seq<string>, selector: Selector)
    requires forall k :: k in order ==> k in db
  {
    Returned(ValuesAt(db, order), selector) == Promised(ValuesAt(db, order), selector)
  }

  ghost predicate AllKeep(db: Db, prefix: string, selector: Selector) {
    forall order :: Enumerates(order, db, prefix) ==> Keeps(db, order, selector)
  }

  /** Where the walk keeps the promise, its verdict is that of every report in it. */
  lemma KeptMeansUniform(db: Db, prefix: string, order: seq<string>, selector: Selector)
    requires Enumerates(order, db, prefix)
    ensures Keeps(db, order, selector) <==>
            forall k :: k in db && prefix <= k ==> Admits(selector, db[k]) == Verdict(ValuesAt(db, order), selector)
  {
    var vals := ValuesAt(db, order);
    PromiseKeptExactly(vals, selector);
    assert forall i :: 0 <= i < |order| ==> order[i] in order && vals[i] == db[order[i]];
    if Keeps(db, order, selector) {
      forall k | k in db && prefix <= k
        ensures Admits(selector, db[k]) == Verdict(vals, selector)
      {
        var i :| 0 <= i < |order| && order[i] == k;
        assert Admits(selector, vals[i]) == Verdict(vals, selector);
      }
    }
  }

  /** Every report has verdict `c` by its own labels; if `c` is no, all are labelled. */
  ghost predicate Uniform(db: Db, prefix: string, selector: Selector, c: bool) {
    && (forall k :: k in db && prefix <= k ==> Admits(selector, db[k]) == c)
    && (c || forall k :: k in db && prefix <= k ==> FieldsOf(db[k]).labels.Some?)
  }

  /** In whatever order the stored label maps are laid over each other, the verdict on the result is `c`. */
  ghost predicate AllLaidAlike(db: Db, prefix: string, selector: Selector, c: bool) {
    forall order :: Enumerates(order, db, prefix) ==> selector(Laid(ValuesAt(db, order))) == c
  }

  lemma UniformKeeps(db: Db, prefix: string, order: seq<string>, selector: Selector, c: bool)
    requires Enumerates(order, db, prefix)
    requires Uniform(db, prefix, selector, c) && AllLaidAlike(db, prefix, selector, c)
    ensures Keeps(db, order, selector)
  {
    KeptMeansUniform(db, prefix, order, selector);
    if |order| > 0 {
      assert order[0] in order;
      VerdictOfWalk(ValuesAt(db, order), selector);
    } else {
      assert forall k :: k in db && prefix <= k ==> k in order;
    }
  }

  /** If all walks keep the promise, no unlabelled report is turned down. */
  lemma KeptFromUnlabelled(db: Db, prefix: string, first: string, selector: Selector)
    requires AllKeep(db, prefix, selector)
    requires first in db && prefix <= first && FieldsOf(db[first]).labels == None
    ensures Admits(selector, db[first])
  {
    var order := WalkFrom(db, prefix, first);
    KeptMeansUniform(db, prefix, order, selector);
    VerdictOfWalk(ValuesAt(db, order), selector);
  }

  /** If all walks keep the promise, the verdict on what any of them merges is that of every report. */
  lemma KeptMeansLaidAlike(db: Db, prefix: string, order: seq<string>, k: string, selector: Selector)
    requires AllKeep(db, prefix, selector) && Enumerates(order, db, prefix) && k in db && prefix <= k
    ensures selector(Laid(ValuesAt(db, order))) == Admits(selector, db[k])
  {
    if i :| 0 <= i < |order| && order[i] in db && FieldsOf(db[order[i]]).labels.Some? {
      var walk := BeginLabelled(db, prefix, order, i);
      KeptMeansUniform(db, prefix, walk, selector);
      VerdictOfWalk(ValuesAt(db, walk), selector);
    } else {
      assert k in order;
      assert forall i :: 0 <= i < |order| ==> order[i] in order && Within(OwnLabels(db[order[i]]), map[]);
      LaidIsWithin(ValuesAt(db, order), map[]);
      assert Laid(ValuesAt(db, order)) == map[] == OwnLabels(db[k]);
    }
  }

  /** If all walks keep the promise, all reports have one verdict, and so has every merge. */
  lemma KeptMeansAlike(db: Db, prefix: string, k: string, selector: Selector)
    requires AllKeep(db, prefix, selector) && k in db && prefix <= k
    ensures Uniform(db, prefix, selector, Admits(selector, db[k]))
    ensures AllLaidAlike(db, prefix, selector, Admits(selector, db[k]))
  {
    var order := WalkFrom(db, prefix, k);
    KeptMeansUniform(db, prefix, order, selector);
    forall l | l in db && prefix <= l && FieldsOf(db[l]).labels == None
      ensures Admits(selector, db[l])
    {
      KeptFromUnlabelled(db, prefix, l, selector);
    }
    forall order | Enumerates(order, db, prefix)
      ensures selector(Laid(ValuesAt(db, order))) == Admits(selector, db[k])
    {
      KeptMeansLaidAlike(db, prefix, order, k, selector);
    }
  }

  lemma FirstIsIn(order: seq<string>)
    ensures order == [] || order[0] in order
  {
  }

  lemma NothingListed(db: Db, prefix: string, selector: Selector)
    requires forall k :: k in db ==> !(prefix <= k)
    ensures Uniform(db, prefix, selector, selector(map[])) && AllLaidAlike(db, prefix, selector, selector(map[]))
  {
    forall order | Enumerates(order, db, prefix)
      ensures Laid(ValuesAt(db, order)) == map[]
    {
      FirstIsIn(order);
    }
  }

  /**
    Every walk returns what listing by labels promises if and only if there is one
    verdict that each report has by its own labels and that all labels together
    have, in whatever order they are laid over each other; and, if that verdict is
    no, no report is unlabelled.
   */
  lemma PromiseKeptOnEveryWalk(db: Db, prefix: string, selector: Selector)
    ensures AllKeep(db, prefix, selector) <==>
            exists c :: Uniform(db, prefix, selector, c) && AllLaidAlike(db, prefix, selector, c)
  {
    if AllKeep(db, prefix, selector) {
      if k :| k in db && prefix <= k {
        KeptMeansAlike(db, prefix, k, selector);
      } else {
        NothingListed(db, prefix, selector);
      }
    } else if c :| Uniform(db, prefix, selector, c) && AllLaidAlike(db, prefix, selector, c) {
      var order :| Enumerates(order, db, prefix) && !Keeps(db, order, selector);
      UniformKeeps(db, prefix, order, selector, c);
    }
  }

  /**
    Where the label maps agree on the labels they share, all labels together are
    their union, whatever the order.  If no report is labelled that is the empty set.
   */
  lemma PromiseKeptWhenLabelsAgree(db: Db, prefix: string, u: Labels, selector: Selector)
    requires Unites(u, db, prefix)
    ensures AllKeep(db, prefix, selector) <==> Uniform(db, prefix, selector, selector(u))
  {
    PromiseKeptOnEveryWalk(db, prefix, selector);
    forall order | Enumerates(order, db, prefix)
      ensures Laid(ValuesAt(db, order)) == u
    {
      MergedIsUnion(db, prefix, u, order);
    }
    var order := WalkOver(set k | k in db && prefix <= k);
    assert Enumerates(order, db, prefix);
    assert AllLaidAlike(db, prefix, selector, selector(u));
  }

  lemma MergedTwo(v: Value, w: Value)
    ensures Merged([v, w]) == MergeLabels(FieldsOf(w).labels, MergeLabels(FieldsOf(v).labels, None))
  {
    assert [v, w][..1] == [v] && [v][..0] == [];
    assert Merged([v]) == MergeLabels(FieldsOf(v).labels, None);
  }

  /** Two values labelled a=1 and a=2, of which a selector admits the first: the walk returns neither, or both. */
  lemma NeitherOrBoth(v: Value, w: Value, selector: Selector)
    requires FieldsOf(v).labels == Some(map["a" := "1"]) && FieldsOf(w).labels == Some(map["a" := "2"])
    requires selector(map["a" := "1"]) && !selector(map["a" := "2"])
    ensures Select(Items([v, w]), selector) == []
    ensures Select(Items([w, v]), selector) == Items([w, v])
  {
    var one, two := map["a" := "1"], map["a" := "2"];
    MergedTwo(v, w);
    MergedTwo(w, v);
    assert Merged([v, w]) == Some(one + two) && one + two == two;
    assert Merged([w, v]) == Some(two + one) && two + one == one;
    assert !Verdict([v, w], selector);
    assert Verdict([w, v], selector);
    AllOrNothing([v, w], selector);
    AllOrNothing([w, v], selector);
  }
}
