/** The in-memory repository registry the backend falls back on when the
    database client is not configured: one list of repository records per
    user id. Ids and timestamps are generated by the caller's environment
    and arrive as parameters. */
module Registry {
  import opened Outcomes

  datatype RepositoryRecord = RepositoryRecord(
    id: string,
    userId: string,
    name: string,
    fullName: string,
    description: Option<string>,
    url: string,
    createdAt: string,
    updatedAt: string)

  /** The body of `POST /repositories`. */
  datatype CreateRequest = CreateRequest(name: string, fullName: string, description: Option<string>, url: string)

  /** user id -> that user's records, in insertion order. */
  type Registry = map<string, seq<RepositoryRecord>>

  datatype RegistryStep<R> = RegistryStep(registry: Registry, reply: Result<R, HttpError>)

  const AlreadyExists: HttpError := HttpError(409, "Repository already exists")
  const NotFound: HttpError := HttpError(404, "Repository not found")

  /** `in_memory_repositories.get(user_id, [])`: the user's records, empty for an unknown user. */
  function ListRepositories(reg: Registry, userId: string): (r: seq<RepositoryRecord>)
    ensures userId !in reg ==> r == []
    ensures userId in reg ==> r == reg[userId]
  {
    if userId in reg then reg[userId] else []
  }

  predicate HasFullName(repos: seq<RepositoryRecord>, fullName: string)
  {
    exists i :: 0 <= i < |repos| && repos[i].fullName == fullName
  }

  /** The in-memory branch of `create_repository`. A full name the user already
      has is refused with 409 and nothing changes; otherwise a record built
      from the request is appended to that user's list only. */
  function CreateRepository(reg: Registry, userId: string, req: CreateRequest,
                            newId: string, createdAt: string, updatedAt: string): (r: RegistryStep<RepositoryRecord>)
    ensures r.reply.Err? <==> HasFullName(ListRepositories(reg, userId), req.fullName)
    ensures r.reply.Err? ==> r.reply.error == AlreadyExists && r.registry == reg
    ensures r.reply.Ok? ==>
              var rec := r.reply.value;
              && rec == RepositoryRecord(newId, userId, req.name, req.fullName, req.description, req.url, createdAt, updatedAt)
              && ListRepositories(r.registry, userId) == ListRepositories(reg, userId) + [rec]
    ensures forall u :: u != userId ==> ListRepositories(r.registry, u) == ListRepositories(reg, u)
  {
    var existing := ListRepositories(reg, userId);
    if HasFullName(existing, req.fullName) then RegistryStep(reg, Err(AlreadyExists))
    else
      var rec := RepositoryRecord(newId, userId, req.name, req.fullName, req.description, req.url, createdAt, updatedAt);
      RegistryStep(reg[userId := existing + [rec]], Ok(rec))
  }

  /** The index of the first record with the given id. */
  function FirstWithId(repos: seq<RepositoryRecord>, id: string): (r: Option<nat>)
    ensures r.None? <==> forall i :: 0 <= i < |repos| ==> repos[i].id != id
    ensures r.Some? ==> r.value < |repos| && repos[r.value].id == id
                        && forall j :: 0 <= j < r.value ==> repos[j].id != id
    decreases |repos|
  {
    if |repos| == 0 then None
    else if repos[0].id == id then Some(0)
    else
      var r := FirstWithId(repos[1..], id);
      assert forall i :: 0 < i < |repos| ==> repos[1..][i - 1] == repos[i];
      if r.None? then None else Some(r.value + 1)
  }

  /** The in-memory branch of `delete_repository`. The record is looked up by
      id in the requesting user's list only; the first match is removed
      (`list.remove` drops the first equal record, which is that one). An
      unknown user or id is refused with 404 and nothing changes. */
  function DeleteRepository(reg: Registry, repositoryId: string, userId: string): (r: RegistryStep<()>)
    ensures r.reply.Ok? <==> exists i :: 0 <= i < |ListRepositories(reg, userId)| && ListRepositories(reg, userId)[i].id == repositoryId
    ensures r.reply.Err? ==> r.reply.error == NotFound && r.registry == reg
    ensures r.reply.Ok? ==>
              var before := ListRepositories(reg, userId);
              var after := ListRepositories(r.registry, userId);
              exists i :: 0 <= i < |before| && before[i].id == repositoryId
                          && (forall j :: 0 <= j < i ==> before[j].id != repositoryId)
                          && after == before[..i] + before[i + 1..]
    ensures forall u :: u != userId ==> ListRepositories(r.registry, u) == ListRepositories(reg, u)
  {
    if userId in reg then
      var repos := reg[userId];
      match FirstWithId(repos, repositoryId)
      case None => RegistryStep(reg, Err(NotFound))
      case Some(i) =>
        assert ListRepositories(reg, userId)[i].id == repositoryId;
        RegistryStep(reg[userId := repos[..i] + repos[i + 1..]], Ok(()))
    else RegistryStep(reg, Err(NotFound))
  }

  /** No user holds the same full name twice. */
  predicate UniqueFullNames(reg: Registry)
  {
    forall u, i, j :: u in reg && 0 <= i < j < |reg[u]| ==> reg[u][i].fullName != reg[u][j].fullName
  }

  /** No id appears twice anywhere in the registry. */
  ghost predicate UniqueIds(reg: Registry)
  {
    forall u, v, i, j :: u in reg && v in reg && 0 <= i < |reg[u]| && 0 <= j < |reg[v]| && (u, i) != (v, j)
      ==> reg[u][i].id != reg[v][j].id
  }

  ghost predicate IdInUse(reg: Registry, id: string)
  {
    exists u, i :: u in reg && 0 <= i < |reg[u]| && reg[u][i].id == id
  }

  /** Creating keeps full names unique per user. */
  lemma CreateKeepsUniqueFullNames(reg: Registry, userId: string, req: CreateRequest, newId: string, createdAt: string, updatedAt: string)
    requires UniqueFullNames(reg)
    ensures UniqueFullNames(CreateRepository(reg, userId, req, newId, createdAt, updatedAt).registry)
  {
    var r := CreateRepository(reg, userId, req, newId, createdAt, updatedAt);
    if r.reply.Ok? {
      var prior := ListRepositories(reg, userId);
      var grown := r.registry[userId];
      assert grown == prior + [r.reply.value];
      forall u, i, j | u in r.registry && 0 <= i < j < |r.registry[u]|
        ensures r.registry[u][i].fullName != r.registry[u][j].fullName
      {
        if u == userId && j == |prior| {
          assert grown[i] == prior[i];
        } else if u == userId {
          assert grown[i] == prior[i] && grown[j] == prior[j];
        }
      }
    }
  }

  /** Deleting keeps full names unique per user. */
  lemma DeleteKeepsUniqueFullNames(reg: Registry, repositoryId: string, userId: string)
    requires UniqueFullNames(reg)
    ensures UniqueFullNames(DeleteRepository(reg, repositoryId, userId).registry)
  {
    var r := DeleteRepository(reg, repositoryId, userId);
    if r.reply.Ok? {
      var before := reg[userId];
      var i := FirstWithId(before, repositoryId).value;
      RemoveAtKeepsDistinct(before, i);
      assert r.registry == reg[userId := before[..i] + before[i + 1..]];
    }
  }

  /** Removing one record from a list with distinct full names keeps them distinct. */
  lemma RemoveAtKeepsDistinct(repos: seq<RepositoryRecord>, i: nat)
    requires i < |repos|
    requires forall x, y :: 0 <= x < y < |repos| ==> repos[x].fullName != repos[y].fullName
    ensures var after := repos[..i] + repos[i + 1..];
            forall x, y :: 0 <= x < y < |after| ==> after[x].fullName != after[y].fullName
  {
    var after := repos[..i] + repos[i + 1..];
    assert forall k :: 0 <= k < |after| ==> after[k] == repos[if k < i then k else k + 1];
  }

  /** With ids unique and the new id unused, creating keeps ids unique. */
  lemma CreateKeepsUniqueIds(reg: Registry, userId: string, req: CreateRequest, newId: string, createdAt: string, updatedAt: string)
    requires UniqueIds(reg) && !IdInUse(reg, newId)
    ensures UniqueIds(CreateRepository(reg, userId, req, newId, createdAt, updatedAt).registry)
  {
    var r := CreateRepository(reg, userId, req, newId, createdAt, updatedAt);
    if r.reply.Ok? {
      var prior := ListRepositories(reg, userId);
      var n := |prior|;
      assert r.registry[userId] == prior + [r.reply.value];
      forall u, v, i, j | u in r.registry && v in r.registry && 0 <= i < |r.registry[u]| && 0 <= j < |r.registry[v]| && (u, i) != (v, j)
        ensures r.registry[u][i].id != r.registry[v][j].id
      {
        var a, b := r.registry[u][i], r.registry[v][j];
        if u == userId && i == n {
          assert a.id == newId;
          if v != userId || j < n {
            assert b == reg[v][j];
          }
        } else if v == userId && j == n {
          assert b.id == newId;
          assert a == reg[u][i];
        } else {
          assert a == reg[u][i] && b == reg[v][j];
        }
      }
    }
  }

  /** With ids unique, a successful delete leaves no record with that id in the user's list. */
  lemma DeleteRemovesId(reg: Registry, repositoryId: string, userId: string)
    requires UniqueIds(reg)
    requires DeleteRepository(reg, repositoryId, userId).reply.Ok?
    ensures forall k :: 0 <= k < |ListRepositories(DeleteRepository(reg, repositoryId, userId).registry, userId)| ==>
              ListRepositories(DeleteRepository(reg, repositoryId, userId).registry, userId)[k].id != repositoryId
  {
    var before := reg[userId];
    var i := FirstWithId(before, repositoryId).value;
    var after := before[..i] + before[i + 1..];
    forall k | 0 <= k < |after|
      ensures after[k].id != repositoryId
    {
      var src := if k < i then k else k + 1;
      assert after[k] == before[src];
      assert (userId, src) != (userId, i);
    }
  }

  /** Deleting a freshly created record by its new id undoes the creation:
      every user's listing is as before. */
  lemma CreateThenDeleteRestores(reg: Registry, userId: string, req: CreateRequest, newId: string, createdAt: string, updatedAt: string)
    requires !IdInUse(reg, newId)
    requires CreateRepository(reg, userId, req, newId, createdAt, updatedAt).reply.Ok?
    ensures var created := CreateRepository(reg, userId, req, newId, createdAt, updatedAt).registry;
            var deleted := DeleteRepository(created, newId, userId);
            && deleted.reply.Ok?
            && forall u :: ListRepositories(deleted.registry, u) == ListRepositories(reg, u)
  {
    var created := CreateRepository(reg, userId, req, newId, createdAt, updatedAt);
    var prior := ListRepositories(reg, userId);
    var grown := prior + [created.reply.value];
    assert created.registry[userId] == grown;
    assert forall k :: 0 <= k < |prior| ==> prior[k].id != newId by {
      if userId in reg {
        assert forall k :: 0 <= k < |prior| ==> prior[k] == reg[userId][k];
      }
    }
    assert grown[|prior|].id == newId;
    assert forall k :: 0 <= k < |prior| ==> grown[k] == prior[k];
    assert FirstWithId(grown, newId) == Some(|prior|);
    assert grown[..|prior|] + grown[|prior| + 1..] == prior;
  }
}
