/**
  Reports, and the text they are stored as.  The text is kept as a record of
  the fields that encoding writes: an empty optional field is dropped, and a
  timestamp is written in whole seconds, or as null when it is zero.
 */
module Codec {
  import opened Wrappers

  type Labels = map<string, string>

  /** Nanoseconds on the report's clock; 0 is the zero time. */
  type Time = int

  const SECOND: int := 1_000_000_000

  /** `body` stands for everything a report says beyond its identity; "" is no body. */
  datatype Report = Report(name: string, namespace: string, uid: string, resourceVersion: string,
                           created: Time, labels: Option<Labels>, body: string)

  /** The variable a decoder starts from. */
  const ZERO_REPORT := Report("", "", "", "", 0, None, "")

  datatype Fields = Fields(name: Option<string>, namespace: Option<string>, uid: Option<string>,
                           resourceVersion: Option<string>, created: Option<int>,
                           labels: Option<Labels>, body: Option<string>)

  datatype Bytes = Json(fields: Fields) | NotJson

  function OmitEmpty(s: string): Option<string> {
    if s == "" then None else Some(s)
  }

  function Overwrite(field: Option<string>, held: string): string {
    match field
    case None => held
    case Some(s) => s
  }

  function Marshal(r: Report): Fields {
    Fields(OmitEmpty(r.name), OmitEmpty(r.namespace), OmitEmpty(r.uid), OmitEmpty(r.resourceVersion),
           if r.created == 0 then None else Some(r.created / SECOND),
           if r.labels == None || r.labels == Some(map[]) then None else r.labels,
           OmitEmpty(r.body))
  }

  /** A present label map is merged into the one already there. */
  function MergeLabels(field: Option<Labels>, held: Option<Labels>): Option<Labels> {
    match (field, held)
    case (None, _) => held
    case (Some(m), None) => Some(m)
    case (Some(m), Some(h)) => Some(h + m)
  }

  /** Decoding fields into a variable that holds `into`: only present fields are overwritten. */
  function Fill(f: Fields, into: Report): Report {
    Report(Overwrite(f.name, into.name), Overwrite(f.namespace, into.namespace),
           Overwrite(f.uid, into.uid), Overwrite(f.resourceVersion, into.resourceVersion),
           match f.created case None => 0 case Some(s) => s * SECOND,
           MergeLabels(f.labels, into.labels), Overwrite(f.body, into.body))
  }

  function Unmarshal(b: Bytes, into: Report): Option<Report> {
    match b
    case NotJson => None
    case Json(f) => Some(Fill(f, into))
  }

  /** The report that decoding into a zero variable yields. */
  function Decode(f: Fields): Report {
    Fill(f, ZERO_REPORT)
  }

  /** What storing a report keeps of it: empty labels become nil, times lose their fraction. */
  function Norm(r: Report): Report {
    r.(created := r.created / SECOND * SECOND,
       labels := if r.labels == Some(map[]) then None else r.labels)
  }

  /** Encoding then decoding keeps a report up to `Norm`, and nothing is lost the second time. */
  lemma RoundTrip(r: Report)
    ensures Unmarshal(Json(Marshal(r)), ZERO_REPORT) == Some(Norm(r))
    ensures Norm(Norm(r)) == Norm(r)
    ensures Decode(Marshal(Norm(r))) == Norm(r)
  {
    var s := r.created / SECOND;
    assert s * SECOND / SECOND == s;
    assert Decode(Marshal(Norm(r))).created == Norm(r).created;
  }

  /** What encoding and decoding leave of `r`: all but empty labels and fractions of a second. */
  ghost predicate Survives(r': Report, r: Report) {
    && r'.name == r.name && r'.namespace == r.namespace && r'.uid == r.uid
    && r'.resourceVersion == r.resourceVersion && r'.body == r.body
    && r'.labels == (if r.labels == Some(map[]) then None else r.labels)
    && r'.created % 1_000_000_000 == 0 && r'.created <= r.created < r'.created + 1_000_000_000
  }

  lemma EncodingSurvives(r: Report)
    ensures Survives(Decode(Marshal(r)), r) && Survives(Norm(r), r)
  {
    RoundTrip(r);
    assert r.created / SECOND * SECOND % SECOND == 0;
  }

  /** What the text says: nothing of an empty string, of no labels, or of the zero time. */
  lemma EncodingOmits(r: Report)
    ensures var f := Marshal(r);
            && f.name == (if r.name == "" then None else Some(r.name))
            && f.namespace == (if r.namespace == "" then None else Some(r.namespace))
            && f.uid == (if r.uid == "" then None else Some(r.uid))
            && f.resourceVersion == (if r.resourceVersion == "" then None else Some(r.resourceVersion))
            && f.body == (if r.body == "" then None else Some(r.body))
            && (f.labels.None? <==> r.labels.None? || |r.labels.value| == 0)
            && (f.labels.Some? ==> f.labels == r.labels)
            && (f.created.None? <==> r.created == 0)
            && (f.created.Some? ==>
                  f.created.value * 1_000_000_000 <= r.created < (f.created.value + 1) * 1_000_000_000)
  {
  }

  /** Decoding into a variable in use: what the text says is taken, what it leaves out stays, label by label too. */
  lemma DecodingFills(f: Fields, into: Report)
    ensures var r := Fill(f, into);
            && r.name == (if f.name.Some? then f.name.value else into.name)
            && r.namespace == (if f.namespace.Some? then f.namespace.value else into.namespace)
            && r.uid == (if f.uid.Some? then f.uid.value else into.uid)
            && r.resourceVersion == (if f.resourceVersion.Some? then f.resourceVersion.value else into.resourceVersion)
            && r.body == (if f.body.Some? then f.body.value else into.body)
            && r.created == (if f.created.Some? then f.created.value * 1_000_000_000 else 0)
            && (r.labels.Some? <==> f.labels.Some? || into.labels.Some?)
            && (f.labels.None? ==> r.labels == into.labels)
    ensures forall a: string :: f.labels.Some? && a in f.labels.value ==>
              a in Fill(f, into).labels.value && Fill(f, into).labels.value[a] == f.labels.value[a]
    ensures forall a: string :: f.labels.Some? && a !in f.labels.value ==>
              (a in Fill(f, into).labels.value <==> into.labels.Some? && a in into.labels.value) &&
              (into.labels.Some? && a in into.labels.value ==> Fill(f, into).labels.value[a] == into.labels.value[a])
  {
  }
}
