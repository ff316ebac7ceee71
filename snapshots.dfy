/**
 * Room snapshots as the sync library hands them to the server, and the rewrite
 * `makeUrlsRelative` that the server applies before it writes one: absolute image and
 * video URLs become `/ws/uploads/<last path segment>`.
 *
 * Only the fields the rewrite looks at are named; every other field of a record, of its
 * `props` and of the snapshot is kept as opaque data that object spreads copy unchanged.
 */
module RoomSnapshots {
  import opened Wrappers
  import opened Paths

  /** The `props` of a record: its `src` (absent, `null` or a string) and the other props. */
  datatype Props = Props(src: Option<string>, otherProps: map<string, string>)

  /** A record's `state`: `typeName`, `type`, `props` and its other fields. */
  datatype RecordState = RecordState(
    typeName: Option<string>,
    kind: Option<string>,
    props: Option<Props>,
    otherFields: map<string, string>)

  /** One entry of `snapshot.documents`. */
  datatype Document = Document(state: Option<RecordState>, lastChangedClock: int)

  /** A room snapshot: its documents, in order, its clock and its schema (the tombstones are not modelled). */
  datatype Snapshot = Snapshot(documents: seq<Document>, clock: int, schema: string)

  /** The prefix of every rewritten `src`. */
  const UploadsPrefix: string := "/ws/uploads/"

  /** The `src` of a document, when its state and props carry a string one. */
  function Src(d: Document): Option<string> {
    if d.state.Some? && d.state.value.props.Some? then d.state.value.props.value.src else None
  }

  /**
   * The guard of the rewrite: an asset record of type image or video whose `src`
   * starts with "http".
   */
  predicate Rewritable(d: Document) {
    d.state.Some? &&
    d.state.value.typeName == Some("asset") &&
    (d.state.value.kind == Some("image") || d.state.value.kind == Some("video")) &&
    Src(d).Some? && StartsWith(Src(d).value, "http")
  }

  /** `d2` is `d` with `props.src` set to `src` and nothing else changed. */
  predicate OnlySrcChanged(d: Document, d2: Document, src: string) {
    d.state.Some? && d.state.value.props.Some? &&
    d2.lastChangedClock == d.lastChangedClock &&
    d2.state.Some? &&
    d2.state.value.typeName == d.state.value.typeName &&
    d2.state.value.kind == d.state.value.kind &&
    d2.state.value.otherFields == d.state.value.otherFields &&
    d2.state.value.props.Some? &&
    d2.state.value.props.value.otherProps == d.state.value.props.value.otherProps &&
    d2.state.value.props.value.src == Some(src)
  }

  /** The relative URL an absolute one becomes, given the pathname the URL parser extracts. */
  function RelativeSrc(pathname: string): (r: string)
    ensures StartsWith(r, UploadsPrefix) && !StartsWith(r, "http")
  {
    var r := UploadsPrefix + LastSegment(pathname);
    assert r[0] == '/';
    r
  }

  /**
   * The callback of `snapshot.documents.map` in `makeUrlsRelative`. `pathname` is the URL
   * parser: `None` where `new URL(src)` throws, which rejects the whole rewrite.
   */
  function RewriteDocument(pathname: string -> Option<string>, d: Document): (r: Result<Document, string>)
    ensures r.Err? <==> Unparsable(pathname, d)
    ensures r.Ok? && !Rewritable(d) ==> r.value == d
    ensures r.Ok? && Rewritable(d) ==> OnlySrcChanged(d, r.value, RelativeSrc(pathname(Src(d).value).value))
  {
    if Rewritable(d) then
      var p := pathname(Src(d).value);
      if p.None? then Err("Invalid URL")
      else
        var st := d.state.value;
        Ok(d.(state := Some(st.(props := Some(st.props.value.(src := Some(RelativeSrc(p.value))))))))
    else Ok(d)
  }

  /** A document the rewrite must parse: its `src` passes the guard but is no URL. */
  predicate Unparsable(pathname: string -> Option<string>, d: Document) {
    Rewritable(d) && pathname(Src(d).value).None?
  }

  /**
   * `documents.map(...)`: same count and order; a document is changed exactly when it
   * passes the guard, and then only in its `src`, which becomes `/ws/uploads/` followed by
   * the last segment of the URL's pathname. The map fails exactly when one URL does not parse.
   */
  function RewriteDocuments(pathname: string -> Option<string>, ds: seq<Document>): (r: Result<seq<Document>, string>)
    ensures r.Err? <==> exists i :: 0 <= i < |ds| && Unparsable(pathname, ds[i])
    ensures r.Ok? ==> |r.value| == |ds|
    ensures r.Ok? ==> forall i :: 0 <= i < |ds| && !Rewritable(ds[i]) ==> r.value[i] == ds[i]
    ensures r.Ok? ==> forall i :: 0 <= i < |ds| && Rewritable(ds[i]) ==>
      OnlySrcChanged(ds[i], r.value[i], RelativeSrc(pathname(Src(ds[i]).value).value))
  {
    if ds == [] then Ok([])
    else
      var head := RewriteDocument(pathname, ds[0]);
      var tail := RewriteDocuments(pathname, ds[1..]);
      if head.Err? then Err(head.error)
      else if tail.Err? then
        assert exists i :: 0 <= i < |ds[1..]| && Unparsable(pathname, ds[1..][i]);
        Err(tail.error)
      else
        var r := [head.value] + tail.value;
        assert forall i :: 1 <= i < |ds| ==> r[i] == tail.value[i - 1] && ds[i] == ds[1..][i - 1];
        Ok(r)
  }

  /** `makeUrlsRelative`: the snapshot with its documents rewritten and the rest unchanged. */
  function MakeUrlsRelative(pathname: string -> Option<string>, s: Snapshot): (r: Result<Snapshot, string>)
    ensures r.Err? <==> exists i :: 0 <= i < |s.documents| && Unparsable(pathname, s.documents[i])
    ensures r.Ok? ==> r.value.clock == s.clock && r.value.schema == s.schema
    ensures r.Ok? ==> |r.value.documents| == |s.documents|
    ensures r.Ok? ==> RewriteDocuments(pathname, s.documents) == Ok(r.value.documents)
    ensures r.Ok? ==> forall i :: 0 <= i < |s.documents| && !Rewritable(s.documents[i]) ==>
      r.value.documents[i] == s.documents[i]
    ensures r.Ok? ==> forall i :: 0 <= i < |s.documents| && Rewritable(s.documents[i]) ==>
      OnlySrcChanged(s.documents[i], r.value.documents[i], RelativeSrc(pathname(Src(s.documents[i]).value).value))
  {
    var ds := RewriteDocuments(pathname, s.documents);
    if ds.Err? then Err(ds.error) else Ok(s.(documents := ds.value))
  }

  /** After the rewrite no document passes the guard any more. */
  lemma NoneRewritableAfter(pathname: string -> Option<string>, s: Snapshot)
    requires MakeUrlsRelative(pathname, s).Ok?
    ensures forall i :: 0 <= i < |MakeUrlsRelative(pathname, s).value.documents| ==>
      !Rewritable(MakeUrlsRelative(pathname, s).value.documents[i])
  {
    var ds, r := s.documents, MakeUrlsRelative(pathname, s).value.documents;
    forall i | 0 <= i < |r| ensures !Rewritable(r[i]) {
      if Rewritable(ds[i]) {
        var src := RelativeSrc(pathname(Src(ds[i]).value).value);
        assert Src(r[i]) == Some(src);
      }
    }
  }

  /** A rewrite whose input no document passes the guard of changes nothing. */
  lemma {:induction false} RewriteDocumentsIdentity(pathname: string -> Option<string>, ds: seq<Document>)
    requires forall i :: 0 <= i < |ds| ==> !Rewritable(ds[i])
    ensures RewriteDocuments(pathname, ds) == Ok(ds)
  {
    if ds != [] {
      RewriteDocumentsIdentity(pathname, ds[1..]);
      assert [ds[0]] + ds[1..] == ds;
    }
  }

  /** `makeUrlsRelative` is idempotent: a rewritten `src` starts with "/ws", not "http". */
  lemma MakeUrlsRelativeIdempotent(pathname: string -> Option<string>, s: Snapshot)
    requires MakeUrlsRelative(pathname, s).Ok?
    ensures MakeUrlsRelative(pathname, MakeUrlsRelative(pathname, s).value) == MakeUrlsRelative(pathname, s)
  {
    var once := MakeUrlsRelative(pathname, s).value;
    NoneRewritableAfter(pathname, s);
    RewriteDocumentsIdentity(pathname, once.documents);
  }
}
