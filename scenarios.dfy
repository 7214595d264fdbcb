/**
 * Request sequences against one store, proved from the handlers' contracts
 * alone, as a client of the API would see them.
 */
module Scenarios {
  import opened Wrappers
  import opened Text
  import opened Schema
  import opened Controller

  /** Deleting an existing project answers 200; a later fetch or delete of the same id answers 404. */
  method DeleteThenLookup(store: ProjectStore, key: nat) returns (deleted: int, fetched: int, deletedAgain: int)
    requires store.Valid() && key in store.records
    modifies store
    ensures deleted == OK && fetched == NOT_FOUND && deletedAgain == NOT_FOUND
    ensures store.records == old(store.records) - {key}
  {
    deleted := store.DeleteProject(ObjectId(key), false);
    var found;
    fetched, found := store.GetProjectById(ObjectId(key), false);
    deletedAgain := store.DeleteProject(ObjectId(key), false);
  }

  /** A project created with an uploaded image is fetched back by its id exactly as created. */
  method CreateThenFetch(store: ProjectStore, body: Body, secureUrl: string)
    returns (created: int, fetched: int, project: Option<Project>, found: Option<Project>)
    requires store.Valid()
    requires CheckBody(body) == Proceed && ValidDocument(Submitted(body, secureUrl))
    modifies store
    ensures created == CREATED && fetched == OK
    ensures project.Some? && found == project
    ensures project.value.name == Trim(body.projectName.s) && project.value.image == Trim(secureUrl)
  {
    created, project := store.CreateProject(body, File(Stored(secureUrl)), false);
    fetched, found := store.GetProjectById(ObjectId(project.value.id), false);
  }

  /** Without a file, create never answers 201: the stored image would be "" and `required` rejects it. */
  lemma CreateWithoutFileFails(body: Body)
    requires CheckBody(body) == Proceed
    ensures !ValidDocument(Submitted(body, ""))
  {
    MissingImageRejected(Submitted(body, ""));
  }

  /** Update runs no validators: it stores a url the schema's validator refuses. */
  method UpdateSkipsValidation(store: ProjectStore, key: nat) returns (status: int, stored: Project)
    requires store.Valid() && key in store.records
    modifies store
    ensures status == OK && key in store.records && store.records[key] == stored
    ensures !UrlValid(stored.url)
  {
    var body := SampleBody();
    var project;
    status, project := store.UpdateProject(ObjectId(key), body, NoFile, false);
    stored := project.value;
  }

  /** A request body whose fields are all filled, with a url that is not one. */
  function SampleBody(): (b: Body)
    ensures CheckBody(b) == Proceed
    ensures Trim(b.url.s) == "not a url" && !UrlValid("not a url")
  {
    var b := Body(Str("Portfolio Site"), Str("A site."), Str("not a url"));
    assert !IsTrimSpace(b.projectName.s[0]) && !IsTrimSpace(b.description.s[0]) && !IsTrimSpace(b.url.s[0]);
    TrimKeepsTrimmed("not a url");
    assert "not a url"[..8][0] != "https://"[0] && "not a url"[..7][0] != "http://"[0];
    b
  }
}
