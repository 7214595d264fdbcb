/**
 * The upload middleware and route table of routes/project.routes.js:
 * multer's `fileFilter` on the MIME type, its 2 MiB size limit, and the
 * five registrations that map a verb and path to a Project handler.
 */
module Uploads {
  import opened Wrappers
  import opened Text

  /** `limits.fileSize`: 2 * 1024 * 1024 bytes. */
  const MaxFileSize: nat := 2 * 1024 * 1024

  lemma MaxFileSizeIsTwoMebibytes()
    ensures MaxFileSize == 2097152
  {
  }

  /** `file.mimetype.split("/")[1]`: the second `/`-separated segment, `undefined` when there is none. */
  function MimeSegment(mimetype: string): (seg: Option<string>)
    ensures seg.None? <==> '/' !in mimetype
    ensures seg.Some? ==> '/' !in seg.value
  {
    var parts := Split(mimetype, '/');
    JoinSplit(mimetype, '/');
    if |parts| > 1 then Some(parts[1]) else None
  }

  /** `allowedTypes.test(ext)`: RegExp.prototype.test converts `undefined` to the string "undefined". */
  function TestedText(seg: Option<string>): string {
    match seg
    case Some(s) => s
    case None => "undefined"
  }

  /** /jpeg|jpg|png|webp/.test(s): unanchored, so any occurrence of one alternative suffices. */
  predicate AllowedType(s: string) {
    Contains(s, "jpeg") || Contains(s, "jpg") || Contains(s, "png") || Contains(s, "webp")
  }

  /** "undefined" contains none of the four alternatives. */
  lemma UndefinedNotAllowed()
    ensures !AllowedType("undefined")
  {
    NoAlternativeStart("undefined");
  }

  /** A text with no j, p or w cannot contain any of the four alternatives. */
  lemma NoAlternativeStart(s: string)
    requires 'j' !in s && 'p' !in s && 'w' !in s
    ensures !AllowedType(s)
  {
    FirstCharAbsent(s, "jpeg");
    FirstCharAbsent(s, "jpg");
    FirstCharAbsent(s, "png");
    FirstCharAbsent(s, "webp");
  }

  /** How `fileFilter` calls back: `cb(null, true)` or `cb(new Error(...))`. */
  datatype FilterCallback = AcceptFile | RejectWithError(message: string)

  const RejectMessage: string := "\U{274C} Only image files are allowed (jpeg, jpg, png, webp)"

  function FileFilter(mimetype: string): (cb: FilterCallback)
    ensures cb.AcceptFile? <==> '/' in mimetype && AllowedType(TestedText(MimeSegment(mimetype)))
    ensures cb.RejectWithError? ==> cb.message == RejectMessage
  {
    var ext := TestedText(MimeSegment(mimetype));
    UndefinedNotAllowed();
    if AllowedType(ext) then AcceptFile else RejectWithError(RejectMessage)
  }

  /** A MIME type without `/` is always rejected. */
  lemma NoSlashRejected(mimetype: string)
    requires '/' !in mimetype
    ensures FileFilter(mimetype).RejectWithError?
  {
  }

  /** The segment is what lies between the first `/` and the next `/` or the end. */
  lemma MimeSegmentOf(top: string, sub: string, rest: string)
    requires '/' !in top && '/' !in sub
    requires rest == [] || rest[0] == '/'
    ensures MimeSegment(top + "/" + sub + rest) == Some(sub)
  {
    if rest == [] {
      SplitWithoutSeparator(sub, '/');
      assert top + "/" + sub + rest == top + ['/'] + sub;
      SplitAfterFirst(top, sub, '/');
    } else {
      var more := rest[1..];
      assert top + "/" + sub + rest == top + ['/'] + (sub + ['/'] + more);
      SplitAfterFirst(top, sub + ['/'] + more, '/');
      SplitAfterFirst(sub, more, '/');
    }
  }

  /** Only the segment between the first and second `/` is tested; the type and any further segments are ignored. */
  lemma OnlySecondSegmentMatters(top: string, sub: string, rest: string)
    requires '/' !in top && '/' !in sub
    requires rest == [] || rest[0] == '/'
    ensures FileFilter(top + "/" + sub + rest) == FileFilter("image/" + sub)
  {
    MimeSegmentOf(top, sub, rest);
    MimeSegmentOf("image", sub, []);
    assert "image/" + sub == "image" + "/" + sub + [];
  }

  /** Because the test is unanchored, text around an accepted segment does not make it rejected. */
  lemma AcceptedSegmentInContext(sub: string, pre: string, post: string)
    requires '/' !in sub && '/' !in pre && '/' !in post
    requires FileFilter("image/" + sub).AcceptFile?
    ensures FileFilter("image/" + pre + sub + post).AcceptFile?
  {
    MimeSegmentOf("image", sub, []);
    assert "image/" + sub == "image" + "/" + sub + [];
    var wide := pre + sub + post;
    assert '/' !in wide by {
      assert forall c | c in wide :: c in pre || c in sub || c in post;
    }
    MimeSegmentOf("image", wide, []);
    assert "image/" + pre + sub + post == "image" + "/" + wide + [];
    if Contains(sub, "jpeg") { ContainsInContext(pre, sub, post, "jpeg"); }
    if Contains(sub, "jpg") { ContainsInContext(pre, sub, post, "jpg"); }
    if Contains(sub, "png") { ContainsInContext(pre, sub, post, "png"); }
    if Contains(sub, "webp") { ContainsInContext(pre, sub, post, "webp"); }
  }

  lemma FileFilterAcceptsPng()
    ensures FileFilter("image/png").AcceptFile?
  {
    MimeSegmentOf("image", "png", []);
    assert "image/png" == "image" + "/" + "png" + [];
    assert OccursAt("png", "png", 0);
  }

  lemma FileFilterRejectsGif()
    ensures FileFilter("image/gif").RejectWithError?
  {
    MimeSegmentOf("image", "gif", []);
    assert "image/gif" == "image" + "/" + "gif" + [];
    NoAlternativeStart("gif");
  }

  lemma FileFilterRejectsSvg()
    ensures FileFilter("image/svg+xml").RejectWithError?
  {
    MimeSegmentOf("image", "svg+xml", []);
    assert "image/svg+xml" == "image" + "/" + "svg+xml" + [];
    NoAlternativeStart("svg+xml");
  }

  /** In a/b/png the tested segment is b, so the png at the end does not help. */
  lemma FileFilterRejectsThirdSegment()
    ensures FileFilter("a/b/png").RejectWithError?
  {
    MimeSegmentOf("a", "b", "/png");
    assert "a/b/png" == "a" + "/" + "b" + "/png";
    NoAlternativeStart("b");
  }

  // ---------------------------------------------------------------------
  // Route table
  // ---------------------------------------------------------------------

  datatype Verb = GET | POST | PUT | DELETE

  datatype Handler = CreateProject | GetProjects | GetProjectById | UpdateProject | DeleteProject

  /** A matched registration: its handler, whether `upload.single("image")` runs first, and the `:id` parameter. */
  datatype RouteMatch = RouteMatch(handler: Handler, singleImageUpload: bool, id: Option<string>)

  /**
   * The router mounted at /api/projects; `segments` are the non-empty path
   * segments after the mount point, so [] is "/" and [x] is "/:id" with id x.
   */
  function Route(verb: Verb, segments: seq<string>): (m: Option<RouteMatch>)
    ensures m.Some? <==> (|segments| == 0 && verb in {GET, POST}) || (|segments| == 1 && verb in {GET, PUT, DELETE})
    ensures m.Some? ==> (m.value.singleImageUpload <==> verb in {POST, PUT})
    ensures m.Some? ==> (m.value.singleImageUpload <==> m.value.handler in {CreateProject, UpdateProject})
    ensures m.Some? ==> (m.value.handler in {GetProjectById, UpdateProject, DeleteProject} <==> |segments| == 1)
    ensures m.Some? ==> (m.value.handler == CreateProject <==> verb == POST)
    ensures m.Some? ==> (m.value.handler == UpdateProject <==> verb == PUT)
    ensures m.Some? ==> (m.value.handler == DeleteProject <==> verb == DELETE)
    ensures m.Some? ==> (m.value.id.Some? <==> |segments| == 1)
    ensures m.Some? && |segments| == 1 ==> m.value.id == Some(segments[0])
  {
    if |segments| == 0 then
      match verb
      case POST => Some(RouteMatch(CreateProject, true, None))
      case GET => Some(RouteMatch(GetProjects, false, None))
      case _ => None
    else if |segments| == 1 then
      var id := Some(segments[0]);
      match verb
      case GET => Some(RouteMatch(GetProjectById, false, id))
      case PUT => Some(RouteMatch(UpdateProject, true, id))
      case DELETE => Some(RouteMatch(DeleteProject, false, id))
      case _ => None
    else None
  }

  /** Each handler is reached by exactly one verb and one path shape. */
  lemma RouteHandlersDistinct(v1: Verb, s1: seq<string>, v2: Verb, s2: seq<string>)
    requires Route(v1, s1).Some? && Route(v2, s2).Some?
    requires Route(v1, s1).value.handler == Route(v2, s2).value.handler
    ensures v1 == v2 && |s1| == |s2|
  {
  }
}
