/** The in-memory automation-status dictionary of the backend: a Python dict
    keyed by the composite text "{owner}/{repo}#{issue_number}", modelled as
    an insertion-ordered list of entries with distinct keys. */
module StatusStore {
  import opened Outcomes
  import opened Text

  /** The `status` field of a record. */
  datatype Phase = Pending | Running | Completed | Failed

  /** One status record; each optional field is `None` where the source writes `None`. */
  datatype AutomationStatus = AutomationStatus(
    phase: Phase,
    startedAt: Option<string>,
    completedAt: Option<string>,
    errorMessage: Option<string>,
    taskId: Option<string>)

  datatype Entry = Entry(key: string, status: AutomationStatus)

  /** The dict's items in insertion order. */
  type Store = seq<Entry>

  /** The repository full name the endpoints build from their path parameters. */
  function FullName(owner: string, name: string): string
  {
    owner + "/" + name
  }

  /** The dict key of an issue: full name, `#`, decimal issue number. */
  function EncodeKey(repo: string, issue: int): (k: string)
    ensures StartsWith(k, repo + "#")
    ensures ParseInt(k[|repo| + 1..]) == Some(issue)
  {
    var k := repo + "#" + IntToString(issue);
    assert k[..|repo| + 1] == repo + "#";
    assert k[|repo| + 1..] == IntToString(issue);
    IntRoundTrip(issue);
    k
  }

  /** Distinct (repository, issue) pairs never share a key, whatever the names hold:
      the number text after the last `#` has no `#` of its own. */
  lemma EncodeKeyInjective(r1: string, n1: int, r2: string, n2: int)
    requires EncodeKey(r1, n1) == EncodeKey(r2, n2)
    ensures r1 == r2 && n1 == n2
  {
    var k := EncodeKey(r1, n1);
    var d1, d2 := IntToString(n1), IntToString(n2);
    DecimalLacks(n1, '#');
    DecimalLacks(n2, '#');
    assert k[|r1|] == '#' && k[|r2|] == '#';
    assert forall j :: |r1| < j < |k| ==> k[j] == d1[j - |r1| - 1];
    assert forall j :: |r2| < j < |k| ==> k[j] == d2[j - |r2| - 1];
    assert |r1| == |r2|;
    assert r1 == k[..|r1|] == r2;
    assert d1 == k[|r1| + 1..] == d2;
    IntToStringInjective(n1, n2);
  }

  /** The listing's decoder, `key.split("#")[1]`, recovers the issue text of a
      key built from a `#`-free repository name, and that text reads back as the number. */
  lemma KeyDecodes(repo: string, issue: int)
    requires '#' !in repo
    ensures Split(EncodeKey(repo, issue), '#') == [repo, IntToString(issue)]
    ensures ParseInt(Split(EncodeKey(repo, issue), '#')[1]) == Some(issue)
  {
    DecimalLacks(issue, '#');
    SplitAfterFree(repo, '#', IntToString(issue));
    IntRoundTrip(issue);
  }

  predicate HasKey(s: Store, k: string)
  {
    exists i :: 0 <= i < |s| && s[i].key == k
  }

  /** Python dicts never hold a key twice. */
  predicate UniqueKeys(s: Store)
  {
    forall i, j :: 0 <= i < j < |s| ==> s[i].key != s[j].key
  }

  /** `dict.get(k)`: the status stored under `k`, taken from its first entry. */
  function Get(s: Store, k: string): (r: Option<AutomationStatus>)
    ensures r.None? <==> !HasKey(s, k)
    ensures r.Some? ==> exists i :: 0 <= i < |s| && s[i] == Entry(k, r.value) && forall j :: 0 <= j < i ==> s[j].key != k
    decreases |s|
  {
    if |s| == 0 then None
    else if s[0].key == k then Some(s[0].status)
    else
      var r := Get(s[1..], k);
      assert forall i :: 0 < i < |s| ==> s[1..][i - 1] == s[i];
      assert r.Some? ==> exists i :: 0 <= i < |s| - 1 && s[1..][i] == Entry(k, r.value) && forall j :: 0 <= j < i ==> s[1..][j].key != k;
      r
  }

  /** `d[k] = v`: an existing key keeps its place, a new key goes last. */
  function Put(s: Store, k: string, v: AutomationStatus): (r: Store)
    ensures HasKey(r, k)
    ensures HasKey(s, k) ==> |r| == |s| && forall i :: 0 <= i < |s| ==> r[i].key == s[i].key
    ensures !HasKey(s, k) ==> |r| == |s| + 1 && r[..|s|] == s && r[|s|] == Entry(k, v)
    ensures forall i :: 0 <= i < |r| && r[i].key != k ==> i < |s| && r[i] == s[i]
    ensures forall i :: 0 <= i < |r| && r[i].key == k ==> r[i].status == v
  {
    if HasKey(s, k) then
      var r := seq(|s|, i requires 0 <= i < |s| => if s[i].key == k then Entry(k, v) else s[i]);
      assert forall i :: 0 <= i < |s| ==> r[i].key == s[i].key;
      r
    else
      var r := s + [Entry(k, v)];
      assert r[|s|].key == k;
      r
  }

  /** After `d[k] = v`, reading `k` gives `v`. */
  lemma GetPutSame(s: Store, k: string, v: AutomationStatus)
    ensures Get(Put(s, k, v), k) == Some(v)
  {
  }

  /** After `d[k] = v`, every other key reads as before. */
  lemma GetPutOther(s: Store, k: string, v: AutomationStatus, k': string)
    requires k' != k
    ensures Get(Put(s, k, v), k') == Get(s, k')
  {
    var r := Put(s, k, v);
    assert forall i :: 0 <= i < |r| && r[i].key == k' ==> r[i] == s[i];
    match Get(s, k')
    case None =>
      assert !HasKey(r, k');
    case Some(st) =>
      var i :| 0 <= i < |s| && s[i] == Entry(k', st) && forall j :: 0 <= j < i ==> s[j].key != k';
      assert HasKey(s, k) ==> r[i].key == s[i].key;
      assert !HasKey(s, k) ==> r[i] == r[..|s|][i];
      GetFirst(r, k', i);
  }

  /** `Get` finds the first item carrying the key. */
  lemma GetFirst(s: Store, k: string, i: nat)
    requires i < |s| && s[i].key == k
    requires forall j :: 0 <= j < i ==> s[j].key != k
    ensures Get(s, k) == Some(s[i].status)
    decreases i
  {
    if i > 0 {
      assert s[0].key != k;
      assert forall j :: 0 <= j < |s| - 1 ==> s[1..][j] == s[j + 1];
      GetFirst(s[1..], k, i - 1);
    }
  }

  /** Writing keeps the keys distinct. */
  lemma PutKeepsUniqueKeys(s: Store, k: string, v: AutomationStatus)
    requires UniqueKeys(s)
    ensures UniqueKeys(Put(s, k, v))
  {
    var r := Put(s, k, v);
    if !HasKey(s, k) {
      forall i, j | 0 <= i < j < |r|
        ensures r[i].key != r[j].key
      {
        if j == |s| {
          assert r[i] == s[i];
        }
      }
    }
  }

  /** `update_automation_status`: store a record under the issue's key. After
      the write the issue reads back as the record, and no other issue of any
      repository reads differently. */
  function UpdateAutomationStatus(store: Store, repo: string, issue: int, st: AutomationStatus): (r: Store)
    ensures GetAutomationStatus(r, repo, issue) == Some(st)
    ensures forall repo', issue' :: (repo', issue') != (repo, issue) ==>
              GetAutomationStatus(r, repo', issue') == GetAutomationStatus(store, repo', issue')
  {
    var k := EncodeKey(repo, issue);
    var r := Put(store, k, st);
    GetPutSame(store, k, st);
    assert forall repo', issue' :: (repo', issue') != (repo, issue) ==> Get(r, EncodeKey(repo', issue')) == Get(store, EncodeKey(repo', issue')) by {
      forall repo', issue' | (repo', issue') != (repo, issue)
        ensures Get(r, EncodeKey(repo', issue')) == Get(store, EncodeKey(repo', issue'))
      {
        if EncodeKey(repo', issue') == k {
          EncodeKeyInjective(repo', issue', repo, issue);
        }
        GetPutOther(store, k, st, EncodeKey(repo', issue'));
      }
    }
    r
  }

  /** `get_automation_status`: the record of one issue, `None` when never written. */
  function GetAutomationStatus(store: Store, repo: string, issue: int): (r: Option<AutomationStatus>)
    ensures r.Some? <==> HasKey(store, EncodeKey(repo, issue))
  {
    Get(store, EncodeKey(repo, issue))
  }

  /** The `GET /automation-status/{owner}/{name}/{issue}` endpoint. */
  function GetIssueAutomationStatus(store: Store, owner: string, name: string, issue: int): (r: Option<AutomationStatus>)
    ensures r.Some? <==> HasKey(store, FullName(owner, name) + "#" + IntToString(issue))
    ensures r.Some? ==> Entry(FullName(owner, name) + "#" + IntToString(issue), r.value) in store
  {
    GetAutomationStatus(store, FullName(owner, name), issue)
  }

  /** The listing loop files the item with key `key` under text `t`: the key
      starts with the prefix and `t` is `key.split("#")[1]`. */
  predicate FiledAs(key: string, prefix: string, t: string)
  {
    StartsWith(key, prefix) && '#' in key && Split(key, '#')[1] == t
  }

  /** `t` is listed with status `v`: the last item filed under `t` carries `v`. */
  ghost predicate LastFiled(s: Store, prefix: string, t: string, v: AutomationStatus)
  {
    exists i :: 0 <= i < |s| && FiledAs(s[i].key, prefix, t) && s[i].status == v
                && forall j :: i < j < |s| ==> !FiledAs(s[j].key, prefix, t)
  }

  /** `r` is what the listing loop leaves after visiting `s`: every filed text
      is listed, and each listed text carries its last filed status. */
  ghost predicate ListsFiled(s: Store, prefix: string, r: map<string, AutomationStatus>)
  {
    && (forall i, t :: 0 <= i < |s| && FiledAs(s[i].key, prefix, t) ==> t in r)
    && (forall t :: t in r ==> LastFiled(s, prefix, t, r[t]))
  }

  /** One turn of the listing loop. */
  function FileItem(acc: map<string, AutomationStatus>, e: Entry, prefix: string): map<string, AutomationStatus>
    requires |prefix| > 0 && prefix[|prefix| - 1] == '#'
  {
    if StartsWith(e.key, prefix) then
      assert e.key[|prefix| - 1] == '#';
      acc[Split(e.key, '#')[1] := e.status]
    else acc
  }

  /** One turn of the loop keeps `ListsFiled` for the visited prefix of the items. */
  lemma FileItemKeeps(init: Store, e: Entry, prefix: string, acc: map<string, AutomationStatus>)
    requires |prefix| > 0 && prefix[|prefix| - 1] == '#'
    requires ListsFiled(init, prefix, acc)
    ensures ListsFiled(init + [e], prefix, FileItem(acc, e, prefix))
  {
    var s, r := init + [e], FileItem(acc, e, prefix);
    forall i, t | 0 <= i < |s| && FiledAs(s[i].key, prefix, t)
      ensures t in r
    {
      if i < |init| {
        assert s[i] == init[i];
      }
    }
    forall t | t in r
      ensures LastFiled(s, prefix, t, r[t])
    {
      FileItemLast(init, e, prefix, acc, t);
    }
  }

  /** The status a text carries after one turn of the loop is its last filed one. */
  lemma FileItemLast(init: Store, e: Entry, prefix: string, acc: map<string, AutomationStatus>, t: string)
    requires |prefix| > 0 && prefix[|prefix| - 1] == '#'
    requires forall t :: t in acc ==> LastFiled(init, prefix, t, acc[t])
    requires t in FileItem(acc, e, prefix)
    ensures LastFiled(init + [e], prefix, t, FileItem(acc, e, prefix)[t])
  {
    if FiledAs(e.key, prefix, t) {
      LastFiledAtEnd(init, e, prefix, t);
    } else {
      assert LastFiled(init, prefix, t, acc[t]);
      var i :| 0 <= i < |init| && FiledAs(init[i].key, prefix, t) && init[i].status == acc[t]
               && forall j :: i < j < |init| ==> !FiledAs(init[j].key, prefix, t);
      LastFiledKept(init, e, prefix, t, i);
    }
  }

  /** An item just filed under `t` is the last one filed under it. */
  lemma LastFiledAtEnd(init: Store, e: Entry, prefix: string, t: string)
    requires FiledAs(e.key, prefix, t)
    ensures LastFiled(init + [e], prefix, t, e.status)
  {
    assert (init + [e])[|init|] == e;
  }

  /** An item not filed under `t` leaves the last item filed under `t` in place. */
  lemma LastFiledKept(init: Store, e: Entry, prefix: string, t: string, i: int)
    requires 0 <= i < |init| && FiledAs(init[i].key, prefix, t)
    requires forall j :: i < j < |init| ==> !FiledAs(init[j].key, prefix, t)
    requires !FiledAs(e.key, prefix, t)
    ensures LastFiled(init + [e], prefix, t, init[i].status)
  {
    var s := init + [e];
    assert forall j :: 0 <= j < |init| ==> s[j] == init[j];
    assert s[|init|] == e;
    assert s[i] == init[i];
  }

  /** The listing loop: visit the items in order and, for every key starting
      with `prefix`, file the status under `key.split("#")[1]`, a later item
      overwriting an earlier one filed under the same text. */
  function Project(s: Store, prefix: string): (r: map<string, AutomationStatus>)
    requires |prefix| > 0 && prefix[|prefix| - 1] == '#'
    ensures ListsFiled(s, prefix, r)
    decreases |s|
  {
    if |s| == 0 then map[]
    else
      var init, e := s[..|s| - 1], s[|s| - 1];
      var acc := Project(init, prefix);
      FileItemKeeps(init, e, prefix, acc);
      assert init + [e] == s;
      FileItem(acc, e, prefix)
  }

  /** `get_repository_automation_status`: the statuses of one repository,
      re-keyed by issue-number text. The listed texts are exactly those of the
      keys that start with "{owner}/{name}#". */
  function RepositoryStatuses(store: Store, owner: string, name: string): (r: map<string, AutomationStatus>)
    ensures forall t :: t in r <==> exists i :: 0 <= i < |store| && FiledAs(store[i].key, FullName(owner, name) + "#", t)
  {
    Project(store, FullName(owner, name) + "#")
  }

  /** A key of the form "{repo}#{number}" with exactly one `#`, the number in
      canonical decimal. Every key a `#`-free repository name produces is one. */
  predicate ValidKey(k: string)
  {
    var parts := Split(k, '#');
    |parts| == 2 && ParseInt(parts[1]).Some? && IntToString(ParseInt(parts[1]).value) == parts[1]
  }

  /** What every store built from `#`-free repository names satisfies. */
  predicate ValidStore(s: Store)
  {
    UniqueKeys(s) && forall i :: 0 <= i < |s| ==> ValidKey(s[i].key)
  }

  lemma EncodeKeyValid(repo: string, issue: int)
    requires '#' !in repo
    ensures ValidKey(EncodeKey(repo, issue))
  {
    KeyDecodes(repo, issue);
  }

  /** Updates under `#`-free repository names keep the store valid. */
  lemma UpdateKeepsValid(store: Store, repo: string, issue: int, st: AutomationStatus)
    requires ValidStore(store) && '#' !in repo
    ensures ValidStore(UpdateAutomationStatus(store, repo, issue, st))
  {
    var k := EncodeKey(repo, issue);
    PutKeepsUniqueKeys(store, k, st);
    EncodeKeyValid(repo, issue);
  }

  /** A valid key that starts with "{repo}#" for a `#`-free repo is exactly
      that prefix followed by the listing's decoded text. */
  lemma MatchingKeyShape(k: string, repo: string)
    requires ValidKey(k) && '#' !in repo && StartsWith(k, repo + "#")
    ensures Split(k, '#')[1] == k[|repo| + 1..]
    ensures k == repo + "#" + Split(k, '#')[1]
  {
    var rest := k[|repo| + 1..];
    assert k == repo + "#" + rest;
    SplitAfterFree(repo, '#', rest);
    assert Split(k, '#') == [repo] + Split(rest, '#');
    assert |Split(rest, '#')| == 1;
  }

  /** `Get` on a store with one more item at the end. */
  lemma GetSnoc(s: Store, e: Entry, k: string)
    requires UniqueKeys(s + [e])
    ensures Get(s + [e], k) == if e.key == k then Some(e.status) else Get(s, k)
  {
    var t := s + [e];
    assert forall i :: 0 <= i < |s| ==> t[i] == s[i];
    assert t[|s|] == e;
    if e.key == k {
      GetFirst(t, k, |s|);
    } else {
      match Get(s, k)
      case None =>
        assert !HasKey(t, k);
      case Some(st) =>
        var i :| 0 <= i < |s| && s[i] == Entry(k, st) && forall j :: 0 <= j < i ==> s[j].key != k;
        GetFirst(t, k, i);
    }
  }

  /** The listing of repository `repo` holds text `t` exactly when the store
      holds key "{repo}#{t}", with that key's status. */
  lemma {:induction false} ProjectExact(s: Store, repo: string)
    requires ValidStore(s) && '#' !in repo
    ensures forall t :: t in Project(s, repo + "#") <==> HasKey(s, repo + "#" + t)
    ensures forall t :: t in Project(s, repo + "#") ==> Get(s, repo + "#" + t) == Some(Project(s, repo + "#")[t])
    decreases |s|
  {
    var prefix := repo + "#";
    if |s| > 0 {
      var init, e := s[..|s| - 1], s[|s| - 1];
      assert s == init + [e];
      assert forall i :: 0 <= i < |init| ==> init[i] == s[i];
      ProjectExact(init, repo);
      forall t
        ensures t in Project(s, prefix) <==> HasKey(s, prefix + t)
        ensures t in Project(s, prefix) ==> Get(s, prefix + t) == Some(Project(s, prefix)[t])
      {
        ProjectSnocAt(init, e, repo, t);
      }
    }
  }

  /** The induction step of `ProjectExact` for one issue text `t`. */
  lemma ProjectSnocAt(init: Store, e: Entry, repo: string, t: string)
    requires ValidStore(init + [e]) && '#' !in repo
    requires t in Project(init, repo + "#") <==> HasKey(init, repo + "#" + t)
    requires t in Project(init, repo + "#") ==> Get(init, repo + "#" + t) == Some(Project(init, repo + "#")[t])
    ensures t in Project(init + [e], repo + "#") <==> HasKey(init + [e], repo + "#" + t)
    ensures t in Project(init + [e], repo + "#") ==> Get(init + [e], repo + "#" + t) == Some(Project(init + [e], repo + "#")[t])
  {
    var prefix, s := repo + "#", init + [e];
    assert s[..|s| - 1] == init && s[|s| - 1] == e;
    GetSnoc(init, e, prefix + t);
    var matches := StartsWith(e.key, prefix);
    if matches {
      assert ValidKey(s[|s| - 1].key);
      MatchingKeyShape(e.key, repo);
    }
    if matches && e.key[|prefix|..] == t {
      assert e.key == prefix + t;
    } else {
      assert e.key != prefix + t;
    }
  }

  /** The per-repository listing holds exactly the issues stored for that
      repository, each filed under its decimal number with its stored record,
      and nothing else: every listed text is some issue's decimal number. */
  lemma ListingExact(store: Store, owner: string, name: string)
    requires ValidStore(store) && '#' !in FullName(owner, name)
    ensures forall issue :: IntToString(issue) in RepositoryStatuses(store, owner, name) <==>
              GetAutomationStatus(store, FullName(owner, name), issue).Some?
    ensures forall issue :: IntToString(issue) in RepositoryStatuses(store, owner, name) ==>
              GetAutomationStatus(store, FullName(owner, name), issue) == Some(RepositoryStatuses(store, owner, name)[IntToString(issue)])
    ensures forall t :: t in RepositoryStatuses(store, owner, name) ==>
              ParseInt(t).Some? && IntToString(ParseInt(t).value) == t
  {
    var repo := FullName(owner, name);
    ProjectExact(store, repo);
    forall t | t in RepositoryStatuses(store, owner, name)
      ensures ParseInt(t).Some? && IntToString(ParseInt(t).value) == t
    {
      var i :| 0 <= i < |store| && store[i].key == repo + "#" + t;
      assert ValidKey(store[i].key);
      assert StartsWith(store[i].key, repo + "#");
      MatchingKeyShape(store[i].key, repo);
    }
  }

  /** A key built for one `#`-free repository never carries the listing prefix
      of another (so `owner/name` does not pick up `owner/namex`'s issues). */
  lemma PrefixOnlyMatchesOwnRepo(r: string, issue: int, q: string)
    requires '#' !in r && '#' !in q
    requires StartsWith(EncodeKey(r, issue), q + "#")
    ensures r == q
  {
    SameFirstPiece(r, IntToString(issue), q);
  }

  /** Two `#`-free names in front of the first `#` of one text are the same name. */
  lemma SameFirstPiece(r: string, x: string, q: string)
    requires '#' !in r && '#' !in q
    requires StartsWith(r + "#" + x, q + "#")
    ensures r == q
  {
    var k := r + "#" + x;
    var rest := k[|q| + 1..];
    assert k[..|q| + 1] == q + "#";
    assert k == k[..|q| + 1] + rest;
    SplitAfterFree(r, '#', x);
    SplitAfterFree(q, '#', rest);
    assert Split(k, '#')[0] == r;
  }

  /** Writing an issue of another `#`-free repository leaves a repository's listing unchanged. */
  lemma UpdateElsewhereInvisible(store: Store, owner: string, name: string, repo: string, issue: int, st: AutomationStatus)
    requires ValidStore(store) && '#' !in FullName(owner, name) && '#' !in repo
    requires repo != FullName(owner, name)
    ensures RepositoryStatuses(UpdateAutomationStatus(store, repo, issue, st), owner, name) == RepositoryStatuses(store, owner, name)
  {
    var q := FullName(owner, name);
    var k := EncodeKey(repo, issue);
    var s' := Put(store, k, st);
    assert UpdateAutomationStatus(store, repo, issue, st) == s';
    UpdateKeepsValid(store, repo, issue, st);
    forall t
      ensures Get(s', q + "#" + t) == Get(store, q + "#" + t)
    {
      KeyOutsidePrefix(repo, issue, q, t);
      GetPutOther(store, k, st, q + "#" + t);
    }
    SameReadsSameListing(s', store, q);
  }

  lemma KeyOutsidePrefix(repo: string, issue: int, q: string, t: string)
    requires '#' !in repo && '#' !in q && repo != q
    ensures EncodeKey(repo, issue) != q + "#" + t
  {
    if EncodeKey(repo, issue) == q + "#" + t {
      PrefixOnlyMatchesOwnRepo(repo, issue, q);
    }
  }

  /** Two valid stores that read alike under a repository's prefix list it alike. */
  lemma SameReadsSameListing(a: Store, b: Store, q: string)
    requires ValidStore(a) && ValidStore(b) && '#' !in q
    requires forall t :: Get(a, q + "#" + t) == Get(b, q + "#" + t)
    ensures Project(a, q + "#") == Project(b, q + "#")
  {
    var pa, pb := Project(a, q + "#"), Project(b, q + "#");
    forall t
      ensures t in pa <==> t in pb
      ensures t in pa ==> pa[t] == pb[t]
    {
      SameReadsAt(a, b, q, t);
    }
    MapsAgree(pa, pb);
  }

  /** One issue text: equal reads give equal listing entries. */
  lemma SameReadsAt(a: Store, b: Store, q: string, t: string)
    requires ValidStore(a) && ValidStore(b) && '#' !in q
    requires Get(a, q + "#" + t) == Get(b, q + "#" + t)
    ensures t in Project(a, q + "#") <==> t in Project(b, q + "#")
    ensures t in Project(a, q + "#") ==> Project(a, q + "#")[t] == Project(b, q + "#")[t]
  {
    ProjectExact(a, q);
    ProjectExact(b, q);
  }

  /** Maps with the same keys and the same value at each key are equal. */
  lemma MapsAgree(pa: map<string, AutomationStatus>, pb: map<string, AutomationStatus>)
    requires forall t :: t in pa <==> t in pb
    requires forall t :: t in pa ==> pa[t] == pb[t]
    ensures pa == pb
  {
    assert pa.Keys == pb.Keys;
  }

  /** The single-issue endpoint and the listing agree on every issue of a `#`-free repository. */
  lemma IssueEndpointAgreesWithListing(store: Store, owner: string, name: string, issue: int)
    requires ValidStore(store) && '#' !in FullName(owner, name)
    ensures GetIssueAutomationStatus(store, owner, name, issue) ==
              if IntToString(issue) in RepositoryStatuses(store, owner, name)
              then Some(RepositoryStatuses(store, owner, name)[IntToString(issue)])
              else None
  {
    ListingExact(store, owner, name);
  }

  /** Why names must be free of `#`: an issue of repository "{q}#{m}" shows up
      in the listing of `q`, filed under the text of `m` (for instance issue 2
      of "o/n#1" is listed for "o/n" as issue "1"). */
  lemma HashInNameLeaks(owner: string, name: string, m: int, issue: int, st: AutomationStatus)
    requires '#' !in FullName(owner, name)
    ensures var other := FullName(owner, name) + "#" + IntToString(m);
            IntToString(m) in RepositoryStatuses(UpdateAutomationStatus([], other, issue, st), owner, name)
  {
    var q := FullName(owner, name);
    var mt, nt := IntToString(m), IntToString(issue);
    var k := q + "#" + (mt + "#" + nt);
    KeyOfHashName(q, mt, issue);
    FirstWrite(q + "#" + mt, issue, st);
    DecimalLacks(m, '#');
    FiledUnderSecondPiece(q, mt, nt);
    FiledIsListed([Entry(k, st)], q + "#", 0, mt);
  }

  /** The key of an issue of repository "{q}#{m}", regrouped. */
  lemma KeyOfHashName(q: string, m: string, issue: int)
    ensures EncodeKey(q + "#" + m, issue) == q + "#" + (m + "#" + IntToString(issue))
  {
  }

  /** Any item filed under `t` puts `t` in the listing. */
  lemma FiledIsListed(s: Store, prefix: string, i: int, t: string)
    requires |prefix| > 0 && prefix[|prefix| - 1] == '#'
    requires 0 <= i < |s| && FiledAs(s[i].key, prefix, t)
    ensures t in Project(s, prefix)
  {
  }

  /** A text `q#m#n` with `#`-free `q` and `m` is filed under `m` for the prefix `q#`. */
  lemma FiledUnderSecondPiece(q: string, m: string, n: string)
    requires '#' !in q && '#' !in m
    ensures FiledAs(q + "#" + (m + "#" + n), q + "#", m)
  {
    var rest := m + "#" + n;
    var k := q + "#" + rest;
    assert k[..|q| + 1] == q + "#";
    assert k[|q|] == '#';
    SplitAfterFree(q, '#', rest);
    SplitAfterFree(m, '#', n);
    assert Split(k, '#')[1] == Split(rest, '#')[0] == m;
  }

  /** The first write into an empty store. */
  lemma FirstWrite(repo: string, issue: int, st: AutomationStatus)
    ensures UpdateAutomationStatus([], repo, issue, st) == [Entry(EncodeKey(repo, issue), st)]
  {
  }

  /** Listing a one-item store whose key carries the prefix. */
  lemma ProjectSingle(k: string, st: AutomationStatus, prefix: string)
    requires |prefix| > 0 && prefix[|prefix| - 1] == '#' && StartsWith(k, prefix)
    ensures '#' in k
    ensures Project([Entry(k, st)], prefix) == map[Split(k, '#')[1] := st]
  {
    assert k[|prefix| - 1] == '#';
    assert [Entry(k, st)][..0] == [];
  }



}
