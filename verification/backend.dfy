/** The job endpoints of the Flask API (`backend/app.py`) over the `job`
    table, held as a sequence of rows. A request either answers with a
    status and leaves the table as it was, or commits one change. Nullable
    columns are `Option`s; `posted` is `posted_date` in milliseconds. */
module Backend {
  import opened Text
  import opened Api
  import Like
  import Sorting
  import Seqs

  const Ok := 200
  const CreatedCode := 201
  const BadRequest := 400
  const NotFound := 404
  const ServerError := 500

  /** One row of the `job` table. `title` and `company` are NOT NULL. */
  datatype Row = Row(
    id: nat,
    title: string,
    company: string,
    location: Option<string>,
    description: Option<string>,
    url: Option<string>,
    salary: Option<string>,
    posted: int,
    isActive: Option<bool>)

  type Table = seq<Row>

  /** Row ids are positive and distinct (the integer primary key). */
  ghost predicate ValidTable(t: Table) {
    && (forall i :: 0 <= i < |t| ==> t[i].id >= 1)
    && (forall i, j :: 0 <= i < j < |t| ==> t[i].id != t[j].id)
  }

  /** A member of the JSON request body: missing, `null`, or a value. */
  datatype Field<T> = Absent | Null | Given(value: T)

  /** The members of the JSON object the create and update endpoints read. */
  datatype JobBody = JobBody(
    title: Field<string>,
    company: Field<string>,
    location: Field<string>,
    description: Field<string>,
    url: Field<string>,
    salary: Field<string>,
    isActive: Field<bool>)

  const NoChanges := JobBody(Absent, Absent, Absent, Absent, Absent, Absent, Absent)

  /** `data.get(key)`: the value, or `None` for a missing or null member. */
  function Get<T>(f: Field<T>): (r: Option<T>)
    ensures r.Some? <==> f.Given?
    ensures f.Given? ==> r.value == f.value
  {
    match f
    case Given(v) => Some(v)
    case _ => None
  }

  /** Python truthiness of `data.get(key)` for a text member. */
  predicate Truthy(f: Field<string>) {
    f.Given? && f.value != ""
  }

  /** The status of an answer and, for a success, its payload. */
  datatype Reply<T> = Reply(code: int, payload: Option<T>)

  /** The answer to a request together with the table after it. */
  datatype Effect<T> = Effect(reply: Reply<T>, table: Table)

  // ---------------------------------------------------------------------
  // Lookup
  // ---------------------------------------------------------------------

  /** Position of the row with `id`, or `|t|` when there is none. */
  function Find(t: Table, id: int): (i: nat)
    ensures i <= |t|
    ensures forall k :: 0 <= k < i ==> t[k].id != id
    ensures i < |t| ==> t[i].id == id
  {
    if t == [] then 0
    else if t[0].id == id then 0
    else 1 + Find(t[1..], id)
  }

  predicate HasId(t: Table, id: int) {
    exists k :: 0 <= k < |t| && t[k].id == id
  }

  /** `GET /api/jobs/<id>`: the row with that id, or 404. */
  function GetJob(t: Table, id: nat): (r: Reply<Row>)
    ensures r.code == NotFound <==> !HasId(t, id)
    ensures r.code != NotFound ==> r.code == Ok && r.payload.Some? && r.payload.value in t && r.payload.value.id == id
    ensures r.code == NotFound ==> r.payload.None?
  {
    var i := Find(t, id);
    if i == |t| then Reply(NotFound, None) else Reply(Ok, Some(t[i]))
  }

  // ---------------------------------------------------------------------
  // Create
  // ---------------------------------------------------------------------

  /** The id SQLite gives the next row: one more than the largest id in use,
      or 1 for an empty table. */
  function NextId(t: Table): (id: nat)
    ensures id >= 1
    ensures forall k :: 0 <= k < |t| ==> t[k].id < id
  {
    if t == [] then 1
    else
      var rest := NextId(t[1..]);
      assert forall k :: 1 <= k < |t| ==> t[k] == t[1..][k - 1];
      if t[0].id + 1 > rest then t[0].id + 1 else rest
  }

  /** `POST /api/jobs`: 400 unless the body names a non-empty title and
      company; otherwise the new row, with the other members copied (a
      missing one stored as null), `is_active` true and `posted_date` now. */
  function CreateJob(t: Table, body: Option<JobBody>, now: int): (e: Effect<Row>)
    ensures e.reply.code == BadRequest <==> body.None? || !Truthy(body.value.title) || !Truthy(body.value.company)
    ensures e.reply.code == BadRequest ==> e.table == t && e.reply.payload.None?
    ensures e.reply.code != BadRequest ==> e.reply.code == CreatedCode && e.reply.payload.Some?
    ensures e.reply.code != BadRequest ==>
      var row := e.reply.payload.value;
      && e.table == t + [row]
      && !HasId(t, row.id)
      && Some(row.title) == Get(body.value.title) && Some(row.company) == Get(body.value.company)
      && row.location == Get(body.value.location) && row.description == Get(body.value.description)
      && row.url == Get(body.value.url) && row.salary == Get(body.value.salary)
      && row.posted == now && row.isActive == Some(true)
    ensures ValidTable(t) ==> ValidTable(e.table)
  {
    if body.None? || !Truthy(body.value.title) || !Truthy(body.value.company) then
      Effect(Reply(BadRequest, None), t)
    else
      var b := body.value;
      var row := Row(NextId(t), b.title.value, b.company.value, Get(b.location), Get(b.description),
                     Get(b.url), Get(b.salary), now, Some(true));
      Effect(Reply(CreatedCode, Some(row)), t + [row])
  }

  /** A created job can be fetched back by its id. */
  lemma CreateThenGet(t: Table, body: Option<JobBody>, now: int)
    requires ValidTable(t)
    requires CreateJob(t, body, now).reply.code == CreatedCode
    ensures var e := CreateJob(t, body, now);
      GetJob(e.table, e.reply.payload.value.id) == Reply(Ok, e.reply.payload)
  {
    var e := CreateJob(t, body, now);
    var row := e.reply.payload.value;
    var i := Find(e.table, row.id);
    assert e.table[|t|] == row;
    assert i == |t|;
  }

  // ---------------------------------------------------------------------
  // Update
  // ---------------------------------------------------------------------

  /** `setattr` for each member present in the body, `null` included. */
  function Overwrite(row: Row, b: JobBody): (r: Row)
    requires !b.title.Null? && !b.company.Null?
    ensures r.id == row.id && r.posted == row.posted
    ensures r.title == (if b.title.Given? then b.title.value else row.title)
    ensures r.company == (if b.company.Given? then b.company.value else row.company)
    ensures r.location == (if b.location.Absent? then row.location else Get(b.location))
    ensures r.description == (if b.description.Absent? then row.description else Get(b.description))
    ensures r.url == (if b.url.Absent? then row.url else Get(b.url))
    ensures r.salary == (if b.salary.Absent? then row.salary else Get(b.salary))
    ensures r.isActive == (if b.isActive.Absent? then row.isActive else Get(b.isActive))
  {
    Row(
      row.id,
      if b.title.Given? then b.title.value else row.title,
      if b.company.Given? then b.company.value else row.company,
      if b.location.Absent? then row.location else Get(b.location),
      if b.description.Absent? then row.description else Get(b.description),
      if b.url.Absent? then row.url else Get(b.url),
      if b.salary.Absent? then row.salary else Get(b.salary),
      row.posted,
      if b.isActive.Absent? then row.isActive else Get(b.isActive))
  }

  /** `PUT /api/jobs/<id>`: 404 for an unknown id; a missing body, or a null
      title or company (which the NOT NULL columns refuse at commit), fails
      with 500 and changes nothing; otherwise the row is overwritten in place. */
  function UpdateJob(t: Table, id: nat, body: Option<JobBody>): (e: Effect<Row>)
    ensures e.reply.code == NotFound <==> !HasId(t, id)
    ensures e.reply.code == ServerError <==>
      HasId(t, id) && (body.None? || body.value.title.Null? || body.value.company.Null?)
    ensures e.reply.code != Ok ==> e.table == t && e.reply.payload.None?
    ensures e.reply.code == Ok ==>
      && e.reply.payload.Some?
      && |e.table| == |t|
      && (forall k :: 0 <= k < |t| && t[k].id != id ==> e.table[k] == t[k])
      && (forall k :: 0 <= k < |t| && t[k].id == id && ValidTable(t) ==>
            e.table[k] == e.reply.payload.value == Overwrite(t[k], body.value))
    ensures ValidTable(t) ==> ValidTable(e.table)
  {
    var i := Find(t, id);
    if i == |t| then Effect(Reply(NotFound, None), t)
    else if body.None? || body.value.title.Null? || body.value.company.Null? then
      Effect(Reply(ServerError, None), t)
    else
      var row := Overwrite(t[i], body.value);
      var t' := t[i := row];
      assert ValidTable(t) ==> forall k :: 0 <= k < |t| && t[k].id == id ==> k == i;
      Effect(Reply(Ok, Some(row)), t')
  }

  /** The frame of an update: a column of the stored row changes only when
      the body names that member, and the id and posting date never change. */
  lemma UpdateChangesOnlyNamedMembers(t: Table, id: nat, body: JobBody, k: nat)
    requires ValidTable(t) && k < |t| && t[k].id == id
    requires UpdateJob(t, id, Some(body)).reply.code == Ok
    ensures var r := UpdateJob(t, id, Some(body)).table[k];
      && r.id == t[k].id && r.posted == t[k].posted
      && (r.title != t[k].title ==> body.title.Given?)
      && (r.company != t[k].company ==> body.company.Given?)
      && (r.location != t[k].location ==> !body.location.Absent?)
      && (r.description != t[k].description ==> !body.description.Absent?)
      && (r.url != t[k].url ==> !body.url.Absent?)
      && (r.salary != t[k].salary ==> !body.salary.Absent?)
      && (r.isActive != t[k].isActive ==> !body.isActive.Absent?)
  {
  }

  /** An update whose body names no member changes nothing. */
  lemma UpdateWithoutChanges(t: Table, id: nat)
    requires HasId(t, id)
    ensures UpdateJob(t, id, Some(NoChanges)).table == t
  {
  }

  /** Repeating an update changes nothing more. */
  lemma UpdateIdempotent(t: Table, id: nat, body: Option<JobBody>)
    requires ValidTable(t)
    ensures var e := UpdateJob(t, id, body);
      UpdateJob(e.table, id, body).table == e.table
  {
    var e := UpdateJob(t, id, body);
    if e.reply.code == Ok {
      var i := Find(t, id);
      assert Find(e.table, id) == i;
    }
  }

  // ---------------------------------------------------------------------
  // Delete
  // ---------------------------------------------------------------------

  /** The rows whose id differs from `id`, in table order. */
  function Without(t: Table, id: int): (r: Table)
    ensures forall x :: x in r <==> x in t && x.id != id
    ensures ValidTable(t) ==> ValidTable(r)
    ensures !HasId(t, id) ==> r == t
    ensures ValidTable(t) && HasId(t, id) ==> |r| == |t| - 1
  {
    var r := Seqs.Filter(t, (x: Row) => x.id != id);
    Seqs.FilterMembers(t, (x: Row) => x.id != id);
    WithoutOne(t, id, r);
    r
  }

  /** `DELETE /api/jobs/<id>`: 404 for an unknown id, otherwise the row is
      removed and the confirmation message names the id. */
  function DeleteJob(t: Table, id: nat): (e: Effect<string>)
    ensures e.reply.code == NotFound <==> !HasId(t, id)
    ensures e.reply.code == NotFound ==> e.table == t
    ensures e.reply.code != NotFound ==>
      && e.reply.code == Ok
      && e.reply.payload == Some("Job " + NatToString(id) + " deleted")
      && (forall x :: x in e.table <==> x in t && x.id != id)
    ensures ValidTable(t) && e.reply.code == Ok ==> |e.table| == |t| - 1
    ensures ValidTable(t) ==> ValidTable(e.table)
  {
    if Find(t, id) == |t| then Effect(Reply(NotFound, None), t)
    else
      Effect(Reply(Ok, Some("Job " + NatToString(id) + " deleted")), Without(t, id))
  }

  /** With distinct ids, removing a present id removes exactly one row, and
      the surviving rows keep distinct ids. */
  lemma WithoutOne(t: Table, id: int, r: Table)
    requires r == Seqs.Filter(t, (x: Row) => x.id != id)
    ensures ValidTable(t) ==> ValidTable(r)
    ensures ValidTable(t) && HasId(t, id) ==> |r| == |t| - 1
    ensures !HasId(t, id) ==> r == t
  {
    var keep := (x: Row) => x.id != id;
    if !HasId(t, id) {
      Seqs.FilterAllPass(t, keep);
    }
    if ValidTable(t) {
      WithoutKeepsValid(t, id, r);
      if HasId(t, id) {
        var k :| 0 <= k < |t| && t[k].id == id;
        assert forall m :: 0 <= m < |t| && m != k ==> keep(t[m]);
        Seqs.FilterDropsOne(t, keep, k);
      }
    }
  }

  lemma WithoutKeepsValid(t: Table, id: int, r: Table)
    requires r == Seqs.Filter(t, (x: Row) => x.id != id)
    requires ValidTable(t)
    ensures ValidTable(r)
  {
    Seqs.FilterMembers(t, (x: Row) => x.id != id);
    Seqs.FilterSubsequence(t, (x: Row) => x.id != id);
    forall i | 0 <= i < |r| ensures r[i].id >= 1 {
      assert r[i] in t;
    }
    forall i, j | 0 <= i < j < |r| ensures r[i].id != r[j].id {
      DistinctIdsInSubsequence(r, t, i, j);
    }
  }

  /** Two positions of a subsequence of a table with distinct ids hold rows with distinct ids. */
  lemma {:induction false} DistinctIdsInSubsequence(r: Table, t: Table, i: int, j: int)
    requires ValidTable(t) && Seqs.IsSubsequence(r, t)
    requires 0 <= i < j < |r|
    ensures r[i].id != r[j].id
    decreases |t|
  {
    if r[0] == t[0] && Seqs.IsSubsequence(r[1..], t[1..]) {
      assert ValidTable(t[1..]);
      if i == 0 {
        Seqs.SubsequenceMembers(r[1..], t[1..]);
        assert r[j] in t[1..];
        var m :| 0 <= m < |t[1..]| && t[1..][m] == r[j];
        assert t[m + 1] == r[j];
      } else {
        DistinctIdsInSubsequence(r[1..], t[1..], i - 1, j - 1);
      }
    } else {
      assert ValidTable(t[1..]);
      DistinctIdsInSubsequence(r, t[1..], i, j);
    }
  }

  /** A deleted job can no longer be fetched. */
  lemma DeleteThenGet(t: Table, id: nat)
    ensures GetJob(DeleteJob(t, id).table, id).code == NotFound
  {
  }

  // ---------------------------------------------------------------------
  // List
  // ---------------------------------------------------------------------

  /** `if param:` — an absent or empty query parameter adds no filter. */
  function Supplied(p: Option<string>): (r: bool)
    ensures r <==> p.Some? && p.value != ""
  {
    p.Some? && p.value != ""
  }

  /** `column.ilike(f'%{term}%')` on a nullable column; `NULL` never matches. */
  predicate ColumnLike(column: Option<string>, term: string) {
    column.Some? && Like.IlikeContains(column.value, term)
  }

  /** Every supplied filter accepts the row, each as the `ilike` the
      endpoint builds from the raw parameter. Terms free of `%` and `_` make
      it the substring test. */
  function Matches(q: JobQuery, r: Row): (m: bool)
    ensures NoWildcardTerms(q) ==> (m <==> MatchesIntended(q, r))
  {
    MatchesAgree(q, r);
    && (Supplied(q.company) ==> Like.IlikeContains(r.company, q.company.value))
    && (Supplied(q.location) ==> ColumnLike(r.location, q.location.value))
    && (Supplied(q.search) ==>
          || Like.IlikeContains(r.title, q.search.value)
          || ColumnLike(r.description, q.search.value)
          || Like.IlikeContains(r.company, q.search.value))
  }

  /** No supplied filter contains a wildcard character. */
  predicate NoWildcardTerms(q: JobQuery) {
    && (Supplied(q.company) ==> Like.NoWildcards(q.company.value))
    && (Supplied(q.location) ==> Like.NoWildcards(q.location.value))
    && (Supplied(q.search) ==> Like.NoWildcards(q.search.value))
  }

  /** A nullable column holding text that contains `term`; null never matches. */
  predicate ColumnContains(column: Option<string>, term: string) {
    column.Some? && Like.ContainsIgnoringCase(column.value, term)
  }

  /** The evidently intended filter: each supplied term occurs, ignoring
      case, in the columns it is matched against. */
  predicate MatchesIntended(q: JobQuery, r: Row) {
    && (Supplied(q.company) ==> Like.ContainsIgnoringCase(r.company, q.company.value))
    && (Supplied(q.location) ==> ColumnContains(r.location, q.location.value))
    && (Supplied(q.search) ==>
          || Like.ContainsIgnoringCase(r.title, q.search.value)
          || ColumnContains(r.description, q.search.value)
          || Like.ContainsIgnoringCase(r.company, q.search.value))
  }

  lemma MatchesAgree(q: JobQuery, r: Row)
    ensures NoWildcardTerms(q) ==>
      ((Supplied(q.company) ==> Like.IlikeContains(r.company, q.company.value))
       <==> (Supplied(q.company) ==> Like.ContainsIgnoringCase(r.company, q.company.value)))
    ensures NoWildcardTerms(q) ==>
      ((Supplied(q.location) ==> ColumnLike(r.location, q.location.value))
       <==> (Supplied(q.location) ==> ColumnContains(r.location, q.location.value)))
    ensures NoWildcardTerms(q) && Supplied(q.search) ==>
      && (Like.IlikeContains(r.title, q.search.value) <==> Like.ContainsIgnoringCase(r.title, q.search.value))
      && (ColumnLike(r.description, q.search.value) <==> ColumnContains(r.description, q.search.value))
      && (Like.IlikeContains(r.company, q.search.value) <==> Like.ContainsIgnoringCase(r.company, q.search.value))
  {
    if NoWildcardTerms(q) {
      if Supplied(q.company) {
        Like.AgreeWithoutWildcards(r.company, q.company.value);
      }
      if Supplied(q.location) && r.location.Some? {
        Like.AgreeWithoutWildcards(r.location.value, q.location.value);
      }
      if Supplied(q.search) {
        Like.AgreeWithoutWildcards(r.title, q.search.value);
        Like.AgreeWithoutWildcards(r.company, q.search.value);
        if r.description.Some? {
          Like.AgreeWithoutWildcards(r.description.value, q.search.value);
        }
      }
    }
  }

  /** The filter as the endpoint runs it, and as intended. */
  function Keep(q: JobQuery): Row -> bool {
    (x: Row) => Matches(q, x)
  }

  function KeepIntended(q: JobQuery): Row -> bool {
    (x: Row) => MatchesIntended(q, x)
  }

  /** The matching rows, in table order. */
  function Select(t: Table, q: JobQuery): (r: Table)
    ensures forall x :: multiset(r)[x] == if Matches(q, x) then multiset(t)[x] else 0
    ensures forall x :: x in r <==> x in t && Matches(q, x)
  {
    Seqs.FilterMembers(t, Keep(q));
    Seqs.FilterMultiset(t, Keep(q));
    Seqs.Filter(t, Keep(q))
  }

  /** `posted_date` descending; ties keep table order. */
  function Later(): (Row, Row) -> bool {
    (a: Row, b: Row) => a.posted >= b.posted
  }

  /** `GET /api/jobs`: every matching row, newest first. */
  function ListJobs(t: Table, q: JobQuery): (r: seq<Row>)
    ensures forall x :: multiset(r)[x] == if Matches(q, x) then multiset(t)[x] else 0
    ensures forall x :: x in r <==> x in t && Matches(q, x)
    ensures forall i, j :: 0 <= i < j < |r| ==> r[i].posted >= r[j].posted
  {
    var s := Select(t, q);
    var r := Sorting.Sort(s, Later());
    NewestFirst(s, r);
    r
  }

  /** The list endpoint with the intended substring filter. */
  function ListJobsIntended(t: Table, q: JobQuery): (r: seq<Row>)
    ensures forall x :: multiset(r)[x] == if MatchesIntended(q, x) then multiset(t)[x] else 0
    ensures forall x :: x in r <==> x in t && MatchesIntended(q, x)
    ensures forall i, j :: 0 <= i < j < |r| ==> r[i].posted >= r[j].posted
  {
    var s := Seqs.Filter(t, KeepIntended(q));
    Seqs.FilterMembers(t, KeepIntended(q));
    Seqs.FilterMultiset(t, KeepIntended(q));
    var r := Sorting.Sort(s, Later());
    NewestFirst(s, r);
    r
  }

  /** When no filter holds `%` or `_`, the endpoint as written lists exactly
      what the intended filter lists, in the same order. */
  lemma ListJobsAgree(t: Table, q: JobQuery)
    requires NoWildcardTerms(q)
    ensures ListJobs(t, q) == ListJobsIntended(t, q)
  {
    forall k | 0 <= k < |t| ensures Keep(q)(t[k]) == KeepIntended(q)(t[k]) {
      assert Matches(q, t[k]) <==> MatchesIntended(q, t[k]);
    }
    Seqs.FilterCongruent(t, Keep(q), KeepIntended(q));
  }

  /** A search for "_" lists a job titled "Acme" at "Acme" with no
      description, which the intended filter leaves out. */
  lemma UnderscoreSearchListsAcme(t: Table, x: Row)
    requires x in t && x.title == "Acme" && x.company == "Acme" && x.description.None?
    ensures x in ListJobs(t, JobQuery(None, None, Some("_")))
    ensures x !in ListJobsIntended(t, JobQuery(None, None, Some("_")))
  {
    Like.UnderscoreMatchesAnyCharacter();
    var q := JobQuery(None, None, Some("_"));
    assert Matches(q, x);
    assert !MatchesIntended(q, x);
  }

  lemma NewestFirst(s: seq<Row>, r: seq<Row>)
    requires r == Sorting.Sort(s, Later())
    ensures forall i, j :: 0 <= i < j < |r| ==> r[i].posted >= r[j].posted
    ensures forall x :: x in r <==> x in s
  {
    Sorting.SortSorted(s, Later());
    forall i, j | 0 <= i < j < |r| ensures r[i].posted >= r[j].posted {
      assert Later()(r[i], r[j]);
    }
    forall x ensures x in r <==> x in s {
      assert x in r <==> x in multiset(r);
    }
  }

  /** With no filters the list endpoint returns the whole table. */
  lemma ListAll(t: Table)
    ensures multiset(ListJobs(t, EmptyQuery)) == multiset(t)
  {
    var r := ListJobs(t, EmptyQuery);
    forall x ensures multiset(r)[x] == multiset(t)[x] {
      assert Matches(EmptyQuery, x);
    }
  }

  /** Adding a filter can only narrow the list. */
  lemma FiltersNarrow(t: Table, q: JobQuery, term: string)
    requires !Supplied(q.company)
    ensures forall x :: x in ListJobs(t, q.(company := Some(term))) ==> x in ListJobs(t, q)
  {
  }
}
