/**
 * The Project handlers of controllers/project.controller.js as methods of a
 * store that holds the `projects` collection. Each handler returns the HTTP
 * status it sends and the project(s) in the JSON body.
 *
 * What the handlers await on is passed in: the media step (the Cloudinary
 * upload followed by removal of the local file) as an Attachment outcome,
 * and whether the database call throws as `dbFault`. The timestamps come
 * from a counter that every write advances, and new ids from another.
 */
module Controller {
  import opened Wrappers
  import opened Text
  import opened Schema

  const OK: int := 200
  const CREATED: int := 201
  const BAD_REQUEST: int := 400
  const NOT_FOUND: int := 404
  const SERVER_ERROR: int := 500

  /** A value of `req.body.projectName` and the like: undefined or null, a string, or any other JSON value. */
  datatype Field = Absent | Str(s: string) | NonText

  datatype Body = Body(projectName: Field, description: Field, url: Field)

  /** What the guard `!x?.trim() || ...` does: let the request through, answer 400, or throw a TypeError. */
  datatype Guard = Proceed | Blank | Throws

  /** The media step for an attached file: both awaits succeed, the upload rejects, or the upload succeeds and removing the local file rejects. */
  datatype MediaStep = Stored(secureUrl: string) | UploadFailed | UnlinkFailed(secureUrl: string)

  /** `req.file`, with what the media step does with it. */
  datatype Attachment = NoFile | File(step: MediaStep)

  /** `req.params.id`: an id Mongoose casts to an ObjectId, or one it cannot cast (a CastError). */
  datatype IdParam = ObjectId(key: nat) | Malformed

  /** A field the guard lets through: a string that is not blank once trimmed. */
  predicate Filled(f: Field) {
    f.Str? && !AllSpace(f.s)
  }

  /** `!x?.trim()` for one field: `?.` yields undefined for a missing field; a non-string has no `trim` to call. */
  function CheckField(f: Field): (g: Guard)
    ensures g == Proceed <==> Filled(f)
    ensures g == Throws <==> f.NonText?
  {
    match f
    case Absent => Blank
    case NonText => Throws
    case Str(s) =>
      TrimBlankIffAllSpace(s);
      if Trim(s) == [] then Blank else Proceed
  }

  /** The guard at lines 15 and 123: the three checks joined by short-circuit `||`. */
  function CheckBody(b: Body): (g: Guard)
    ensures g == Proceed <==> Filled(b.projectName) && Filled(b.description) && Filled(b.url)
    ensures g == Throws <==>
      || b.projectName.NonText?
      || (Filled(b.projectName) && b.description.NonText?)
      || (Filled(b.projectName) && Filled(b.description) && b.url.NonText?)
  {
    var first := CheckField(b.projectName);
    if first != Proceed then first
    else
      var second := CheckField(b.description);
      if second != Proceed then second
      else CheckField(b.url)
  }

  /** The document handed to Mongoose: the trimmed fields and the image reference. */
  function Submitted(b: Body, image: string): Document
    requires CheckBody(b) == Proceed
  {
    Document(Trim(b.projectName.s), Trim(b.description.s), Trim(b.url.s), image)
  }

  /** The remote references an attachment leaves in the media store. */
  function UploadedRefs(file: Attachment): seq<string> {
    match file
    case NoFile => []
    case File(Stored(u)) => [u]
    case File(UnlinkFailed(u)) => [u]
    case File(UploadFailed) => []
  }

  /** What holds of every stored record: all four fields trimmed, and name, description and url present. */
  predicate WellFormed(p: Project) {
    && Trimmed(p.name) && Trimmed(p.description) && Trimmed(p.url) && Trimmed(p.image)
    && p.name != [] && p.description != [] && p.url != []
  }

  /** Records listed newest first; creation times are distinct, so the order is strict. */
  predicate NewestFirst(ps: seq<Project>) {
    forall i, j | 0 <= i < j < |ps| :: ps[i].createdAt > ps[j].createdAt
  }

  /** One step of ordering by createdAt, descending. */
  function InsertByCreation(p: Project, ps: seq<Project>): (r: seq<Project>)
    requires NewestFirst(ps)
    requires forall i | 0 <= i < |ps| :: ps[i].createdAt != p.createdAt
    ensures NewestFirst(r)
    ensures |r| == |ps| + 1
    ensures forall q :: q in r <==> q == p || q in ps
  {
    if ps == [] || p.createdAt > ps[0].createdAt then [p] + ps
    else
      var rest := InsertByCreation(p, ps[1..]);
      assert forall q | q in rest :: q.createdAt < ps[0].createdAt by {
        forall q | q in rest ensures q.createdAt < ps[0].createdAt {
          if q != p {
            var j :| 0 <= j < |ps[1..]| && ps[1..][j] == q;
            assert q == ps[j + 1];
          }
        }
      }
      assert forall j | 0 < j < |rest| + 1 :: ([ps[0]] + rest)[j] in rest;
      [ps[0]] + rest
  }

  /** The document's fields once Mongoose's trim setters have run on the submitted values. */
  lemma SubmittedNormalized(b: Body, image: string)
    requires CheckBody(b) == Proceed
    ensures Normalize(Submitted(b, image)) ==
      Document(Trim(b.projectName.s), Trim(b.description.s), Trim(b.url.s), Trim(image))
    ensures Trim(b.projectName.s) != [] && Trim(b.description.s) != [] && Trim(b.url.s) != []
  {
    TrimIdempotent(b.projectName.s);
    TrimIdempotent(b.description.s);
    TrimIdempotent(b.url.s);
    TrimBlankIffAllSpace(b.projectName.s);
    TrimBlankIffAllSpace(b.description.s);
    TrimBlankIffAllSpace(b.url.s);
  }

  /** The invariant of the collection, over its values. */
  ghost predicate StoreInvariant(records: map<nat, Project>, clock: nat, nextId: nat) {
    && (forall k | k in records :: records[k].id == k && k < nextId)
    && (forall k | k in records :: records[k].createdAt <= records[k].updatedAt < clock)
    && (forall k | k in records :: WellFormed(records[k]))
    && (forall k1, k2 | k1 in records && k2 in records && k1 != k2 ::
          records[k1].createdAt != records[k2].createdAt)
  }

  lemma InsertKeepsInvariant(records: map<nat, Project>, clock: nat, nextId: nat, p: Project)
    requires StoreInvariant(records, clock, nextId)
    requires p.id == nextId && p.createdAt == clock && p.updatedAt == clock && WellFormed(p)
    ensures nextId !in records
    ensures StoreInvariant(records[nextId := p], clock + 1, nextId + 1)
  {
  }

  lemma ReplaceKeepsInvariant(records: map<nat, Project>, clock: nat, nextId: nat, p: Project)
    requires StoreInvariant(records, clock, nextId)
    requires p.id in records && p.createdAt == records[p.id].createdAt && p.updatedAt == clock && WellFormed(p)
    ensures StoreInvariant(records[p.id := p], clock + 1, nextId)
  {
  }

  class ProjectStore {
    /** The `projects` collection, by id. */
    var records: map<nat, Project>
    /** The clock behind createdAt and updatedAt: every write takes the current tick and advances it. */
    var clock: nat
    /** The next id to hand out. */
    var nextId: nat
    /** Every secure_url uploaded so far, in order; no handler ever releases one. */
    var media: seq<string>

    ghost predicate Valid()
      reads this
    {
      StoreInvariant(records, clock, nextId)
    }

    constructor ()
      ensures Valid()
      ensures records == map[] && media == [] && clock == 0 && nextId == 0
    {
      records, media, clock, nextId := map[], [], 0, 0;
    }

    /** The insert behind `save` once validation passed: a fresh id, and both timestamps set to now. */
    method Insert(d: Document) returns (p: Project)
      requires Valid() && ValidDocument(d)
      modifies this`records, this`clock, this`nextId
      ensures Valid()
      ensures var n := Normalize(d);
        p == Project(old(nextId), n.name, n.description, n.url, n.image, old(clock), old(clock))
      ensures old(nextId) !in old(records) && records == old(records)[old(nextId) := p]
      ensures nextId == old(nextId) + 1 && clock == old(clock) + 1
    {
      var n := Normalize(d);
      p := Project(nextId, n.name, n.description, n.url, n.image, clock, clock);
      InsertKeepsInvariant(records, clock, nextId, p);
      records := records[nextId := p];
      nextId, clock := nextId + 1, clock + 1;
    }

    /**
     * `findByIdAndUpdate(key, d, { new: true })`: the setters run, updatedAt
     * is set to now, createdAt is kept, and no validator runs.
     */
    method ReplaceById(key: nat, d: Document) returns (p: Project)
      requires Valid() && key in records
      requires Normalize(d).name != [] && Normalize(d).description != [] && Normalize(d).url != []
      modifies this`records, this`clock
      ensures Valid()
      ensures var n := Normalize(d);
        p == Project(key, n.name, n.description, n.url, n.image, old(records)[key].createdAt, old(clock))
      ensures records == old(records)[key := p] && clock == old(clock) + 1
    {
      var n := Normalize(d);
      p := Project(key, n.name, n.description, n.url, n.image, records[key].createdAt, clock);
      ReplaceKeepsInvariant(records, clock, nextId, p);
      records := records[key := p];
      clock := clock + 1;
    }

    /**
     * The media step both create and update run for an attached file:
     * `cloudinary.uploader.upload` into the "projects" folder, then
     * `fs.unlink` of the local copy. A rejection of either ends the step.
     */
    method Upload(step: MediaStep) returns (ok: bool)
      modifies this`media
      ensures ok <==> step.Stored?
      ensures media == old(media) + UploadedRefs(File(step))
    {
      match step
      case UploadFailed =>
        ok := false;
      case UnlinkFailed(u) =>
        media := media + [u];
        ok := false;
      case Stored(u) =>
        media := media + [u];
        ok := true;
    }

    /** POST /api/projects */
    method CreateProject(body: Body, file: Attachment, dbFault: bool) returns (status: int, project: Option<Project>)
      requires Valid()
      modifies this
      ensures Valid()
      ensures status in {CREATED, BAD_REQUEST, SERVER_ERROR}
      ensures status == BAD_REQUEST <==> CheckBody(body) == Blank
      ensures status == CREATED <==>
        && CheckBody(body) == Proceed && file.File? && file.step.Stored? && !dbFault
        && ValidDocument(Submitted(body, file.step.secureUrl))
      ensures media == old(media) + (if CheckBody(body) == Proceed then UploadedRefs(file) else [])
      ensures status != CREATED ==>
        records == old(records) && project == None && clock == old(clock) && nextId == old(nextId)
      ensures status == CREATED ==>
        && old(nextId) !in old(records)
        && project == Some(Project(old(nextId), Trim(body.projectName.s), Trim(body.description.s),
                                   Trim(body.url.s), Trim(file.step.secureUrl), old(clock), old(clock)))
        && records == old(records)[old(nextId) := project.value]
        && clock == old(clock) + 1 && nextId == old(nextId) + 1
    {
      var guard := CheckBody(body);
      if guard == Throws {
        return SERVER_ERROR, None;
      }
      if guard == Blank {
        return BAD_REQUEST, None;
      }
      var imageUrl := "";
      if file.File? {
        var uploaded := Upload(file.step);
        if !uploaded {
          return SERVER_ERROR, None;
        }
        imageUrl := file.step.secureUrl;
      } else {
        MissingImageRejected(Submitted(body, imageUrl));
      }
      var doc := Submitted(body, imageUrl);
      if dbFault || !ValidDocument(doc) {
        return SERVER_ERROR, None;
      }
      SubmittedNormalized(body, imageUrl);
      var p := Insert(doc);
      return CREATED, Some(p);
    }

    /** GET /api/projects: the query `find().sort({ createdAt: -1 })`. */
    method GetProjects(dbFault: bool) returns (status: int, projects: seq<Project>)
      requires Valid()
      ensures status == (if dbFault then SERVER_ERROR else OK)
      ensures dbFault ==> projects == []
      ensures NewestFirst(projects)
      ensures !dbFault ==> |projects| == |records| && forall k | k in records :: records[k] in projects
      ensures forall i | 0 <= i < |projects| :: projects[i].id in records && records[projects[i].id] == projects[i]
    {
      if dbFault {
        return SERVER_ERROR, [];
      }
      var pending := records.Keys;
      projects := [];
      while pending != {}
        invariant pending <= records.Keys
        invariant |projects| + |pending| == |records|
        invariant NewestFirst(projects)
        invariant forall q | q in projects :: q.id in records && records[q.id] == q && q.id !in pending
        invariant forall k | k in records && k !in pending :: records[k] in projects
        decreases pending
      {
        var k :| k in pending;
        projects := InsertByCreation(records[k], projects);
        pending := pending - {k};
      }
      status := OK;
    }

    /** GET /api/projects/:id */
    method GetProjectById(id: IdParam, dbFault: bool) returns (status: int, project: Option<Project>)
      ensures status == SERVER_ERROR <==> id.Malformed? || dbFault
      ensures status == NOT_FOUND <==> id.ObjectId? && !dbFault && id.key !in records
      ensures status == OK <==> id.ObjectId? && !dbFault && id.key in records
      ensures project == if status == OK then Some(records[id.key]) else None
    {
      if id.Malformed? || dbFault {
        return SERVER_ERROR, None;
      }
      if id.key !in records {
        return NOT_FOUND, None;
      }
      return OK, Some(records[id.key]);
    }

    /** PUT /api/projects/:id: `findByIdAndUpdate` with `{ new: true }`, which runs setters and timestamps but no validators. */
    method UpdateProject(id: IdParam, body: Body, file: Attachment, dbFault: bool) returns (status: int, project: Option<Project>)
      requires Valid()
      modifies this`records, this`clock, this`media
      ensures Valid()
      ensures status in {OK, BAD_REQUEST, NOT_FOUND, SERVER_ERROR}
      ensures status == BAD_REQUEST <==> CheckBody(body) == Blank
      ensures status == NOT_FOUND <==>
        CheckBody(body) == Proceed && id.ObjectId? && !dbFault && id.key !in old(records)
      ensures status == OK <==>
        && CheckBody(body) == Proceed && id.ObjectId? && !dbFault && id.key in old(records)
        && (file.NoFile? || file.step.Stored?)
      ensures media == old(media) +
        (if CheckBody(body) == Proceed && id.ObjectId? && !dbFault && id.key in old(records)
         then UploadedRefs(file) else [])
      ensures status != OK ==> records == old(records) && clock == old(clock) && project == None
      ensures status == OK ==>
        var before := old(records)[id.key];
        && project == Some(Project(id.key, Trim(body.projectName.s), Trim(body.description.s), Trim(body.url.s),
                                   if file.NoFile? then before.image else Trim(file.step.secureUrl),
                                   before.createdAt, old(clock)))
        && records == old(records)[id.key := project.value]
        && clock == old(clock) + 1
    {
      var guard := CheckBody(body);
      if guard == Throws {
        return SERVER_ERROR, None;
      }
      if guard == Blank {
        return BAD_REQUEST, None;
      }
      if id.Malformed? || dbFault {
        return SERVER_ERROR, None;
      }
      if id.key !in records {
        return NOT_FOUND, None;
      }
      var existing := records[id.key];
      var newImageUrl := existing.image;
      if file.File? {
        var uploaded := Upload(file.step);
        if !uploaded {
          return SERVER_ERROR, None;
        }
        newImageUrl := file.step.secureUrl;
      } else {
        TrimKeepsTrimmed(existing.image);
      }
      SubmittedNormalized(body, newImageUrl);
      var p := ReplaceById(id.key, Submitted(body, newImageUrl));
      return OK, Some(p);
    }

    /** DELETE /api/projects/:id: `findByIdAndDelete`; the image is not released. */
    method DeleteProject(id: IdParam, dbFault: bool) returns (status: int)
      requires Valid()
      modifies this`records
      ensures Valid()
      ensures status == SERVER_ERROR <==> id.Malformed? || dbFault
      ensures status == NOT_FOUND <==> id.ObjectId? && !dbFault && id.key !in old(records)
      ensures status == OK <==> id.ObjectId? && !dbFault && id.key in old(records)
      ensures records == if status == OK then old(records) - {id.key} else old(records)
    {
      if id.Malformed? || dbFault {
        return SERVER_ERROR;
      }
      if id.key !in records {
        return NOT_FOUND;
      }
      records := records - {id.key};
      return OK;
    }
  }
}
