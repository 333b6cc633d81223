/** The post-processing of the LinkedIn scraper (`backend/scraper.py`): the
    tail of `extract_job_details_selenium` that turns the strings read off a
    job card into a record, the de-duplication of `scrape_linkedin` across
    search terms, and the duplicate check and insert loop of
    `scrape_and_save`. The browser is not modelled: each search term
    contributes the sequence of cards it yielded, already read as text. */
module Scraper {
  import opened Api
  import opened Text
  import Dedup
  import Seqs
  import Backend

  const NoSalary := "N/A"

  /** What was read off one job card (each text already stripped). `url` is
      the link's `href`, absent when the attribute is missing. `read` is the
      `datetime.utcnow()` reading taken as this card's record is built, so
      every card carries its own time. */
  datatype Card = Card(title: string, company: string, location: string, url: Option<string>, read: int)

  /** The `job_data` dictionary. */
  datatype ScrapedJob = ScrapedJob(
    title: string,
    company: string,
    location: string,
    description: Option<string>,
    url: Option<string>,
    salary: string,
    posted: int,
    isActive: bool)

  // ---------------------------------------------------------------------
  // Normalisation
  // ---------------------------------------------------------------------

  /** A card without a title or company is dropped; otherwise the location
      defaults to "Not specified", the link doubles as the description, the
      salary is "N/A", the job is active and is posted at the card's clock reading. */
  function Normalise(c: Card): (r: Option<ScrapedJob>)
    ensures r.None? <==> c.title == "" || c.company == ""
    ensures r.Some? ==>
      && r.value.title == c.title && r.value.company == c.company
      && r.value.location == (if c.location == "" then NotSpecified else c.location)
      && r.value.location != ""
      && r.value.description == r.value.url == c.url
      && r.value.salary == NoSalary && r.value.posted == c.read && r.value.isActive
  {
    if c.title == "" || c.company == "" then None
    else Some(ScrapedJob(c.title, c.company, if c.location != "" then c.location else NotSpecified,
                         c.url, c.url, NoSalary, c.read, true))
  }

  /** `f"{title}|{company}|{location}"`. */
  function Identifier(j: ScrapedJob): string {
    j.title + "|" + j.company + "|" + j.location
  }

  /** Without a `|` inside the fields, the identifier determines the title,
      the company and the location. */
  lemma IdentifierInjective(a: ScrapedJob, b: ScrapedJob)
    requires '|' !in a.title && '|' !in a.company && '|' !in b.title && '|' !in b.company
    requires Identifier(a) == Identifier(b)
    ensures a.title == b.title && a.company == b.company && a.location == b.location
  {
    assert Identifier(a) == a.title + "|" + (a.company + "|" + a.location);
    assert Identifier(b) == b.title + "|" + (b.company + "|" + b.location);
    SplitAtBar(a.title, a.company + "|" + a.location, b.title, b.company + "|" + b.location);
    SplitAtBar(a.company, a.location, b.company, b.location);
  }

  /** A bar-free prefix ends at the first `|`. */
  lemma SplitAtBar(x: string, y: string, x': string, y': string)
    requires '|' !in x && '|' !in x' && x + "|" + y == x' + "|" + y'
    ensures x == x' && y == y'
  {
    var s := x + "|" + y;
    assert IndexOf(s, '|') == |x| by {
      assert s[|x|] == '|';
      assert forall k :: 0 <= k < |x| ==> s[k] == x[k];
    }
    assert IndexOf(s, '|') == |x'| by {
      assert s[|x'|] == '|';
      assert forall k :: 0 <= k < |x'| ==> s[k] == x'[k];
    }
    assert x == s[..|x|] && x' == s[..|x'|];
    assert y == s[|x| + 1..] && y' == s[|x'| + 1..];
  }

  /** The identifier is not a faithful key: a `|` inside a field lets two
      different jobs share it, and the second is then dropped as a duplicate. */
  lemma IdentifierCollides()
    ensures var a := ScrapedJob("Dev|Ops", "Acme", "Lahore", None, None, NoSalary, 0, true);
      var b := ScrapedJob("Dev", "Ops|Acme", "Lahore", None, None, NoSalary, 0, true);
      a != b && Identifier(a) == Identifier(b)
  {
    assert "Dev|Ops" + "|" + "Acme" == "Dev" + "|" + "Ops|Acme";
  }

  /** The records the cards of one search term yield, in card order. */
  function Extracted(cards: seq<Card>): (js: seq<ScrapedJob>)
    ensures |js| <= |cards|
  {
    if cards == [] then []
    else
      var head := Normalise(cards[0]);
      (if head.Some? then [head.value] else []) + Extracted(cards[1..])
  }

  /** Every record extracted has a title and a company. */
  lemma {:induction false} ExtractedComplete(cards: seq<Card>)
    ensures forall k :: 0 <= k < |Extracted(cards)| ==>
      Extracted(cards)[k].title != "" && Extracted(cards)[k].company != ""
  {
    if cards != [] {
      ExtractedComplete(cards[1..]);
      var head := Normalise(cards[0]);
      var first := if head.Some? then [head.value] else [];
      forall k | 0 <= k < |Extracted(cards)|
        ensures Extracted(cards)[k].title != "" && Extracted(cards)[k].company != ""
      {
        if k >= |first| {
          assert Extracted(cards)[k] == Extracted(cards[1..])[k - |first|];
        }
      }
    }
  }

  /** The records of every search term, in order. */
  function AllExtracted(batches: seq<seq<Card>>): seq<ScrapedJob> {
    if batches == [] then [] else Extracted(batches[0]) + AllExtracted(batches[1..])
  }

  lemma AllExtractedStep(batches: seq<seq<Card>>, t: nat)
    requires t < |batches|
    ensures AllExtracted(batches[t..]) == Extracted(batches[t]) + AllExtracted(batches[t + 1..])
  {
    assert batches[t..][0] == batches[t] && batches[t..][1..] == batches[t + 1..];
  }

  lemma ExtractedStep(cards: seq<Card>, j: nat)
    requires j < |cards|
    ensures Extracted(cards[j..]) ==
      (if Normalise(cards[j]).Some? then [Normalise(cards[j]).value] else []) + Extracted(cards[j + 1..])
  {
    assert cards[j..][0] == cards[j];
    assert cards[j..][1..] == cards[j + 1..];
  }

  /** All search terms' cards in the order the scraper visits them. */
  function Flatten(batches: seq<seq<Card>>): seq<Card> {
    if batches == [] then [] else batches[0] + Flatten(batches[1..])
  }

  /** The clock readings never go back over the run. */
  ghost predicate ReadInOrder(cards: seq<Card>) {
    forall i, j :: 0 <= i < j < |cards| ==> cards[i].read <= cards[j].read
  }

  /** Posting times never go back along the records. */
  ghost predicate PostedInOrder(js: seq<ScrapedJob>) {
    forall i, j :: 0 <= i < j < |js| ==> js[i].posted <= js[j].posted
  }

  lemma {:induction false} ExtractedAppend(a: seq<Card>, b: seq<Card>)
    ensures Extracted(a + b) == Extracted(a) + Extracted(b)
  {
    if a != [] {
      assert (a + b)[0] == a[0] && (a + b)[1..] == a[1..] + b;
      ExtractedAppend(a[1..], b);
    } else {
      assert a + b == b;
    }
  }

  /** Extracting term by term is extracting from all the cards at once. */
  lemma {:induction false} AllExtractedFlat(batches: seq<seq<Card>>)
    ensures AllExtracted(batches) == Extracted(Flatten(batches))
  {
    if batches != [] {
      AllExtractedFlat(batches[1..]);
      ExtractedAppend(batches[0], Flatten(batches[1..]));
    }
  }

  /** Every record is posted no earlier than a bound below all the readings. */
  lemma {:induction false} ExtractedNotBefore(cards: seq<Card>, lo: int)
    requires forall i :: 0 <= i < |cards| ==> lo <= cards[i].read
    ensures forall k :: 0 <= k < |Extracted(cards)| ==> lo <= Extracted(cards)[k].posted
  {
    if cards != [] {
      ExtractedNotBefore(cards[1..], lo);
      ExtractedStep(cards, 0);
      assert cards[0..] == cards;
    }
  }

  /** Cards read in clock order yield records in posting order. */
  lemma {:induction false} ExtractedInOrder(cards: seq<Card>)
    requires ReadInOrder(cards)
    ensures PostedInOrder(Extracted(cards))
  {
    if cards != [] {
      var rest := Extracted(cards[1..]);
      ExtractedInOrder(cards[1..]);
      ExtractedNotBefore(cards[1..], cards[0].read);
      ExtractedStep(cards, 0);
      assert cards[0..] == cards;
      var r := Extracted(cards);
      if Normalise(cards[0]).Some? {
        assert r == [Normalise(cards[0]).value] + rest;
        forall i, j | 0 <= i < j < |r| ensures r[i].posted <= r[j].posted {
          assert r[j] == rest[j - 1];
          if i > 0 {
            assert r[i] == rest[i - 1];
          }
        }
      }
    }
  }

  /** Dropping records keeps the posting order. */
  lemma {:induction false} SubsequenceInOrder(a: seq<ScrapedJob>, b: seq<ScrapedJob>)
    requires Seqs.IsSubsequence(a, b) && PostedInOrder(b)
    ensures PostedInOrder(a)
    decreases |b|
  {
    if a != [] {
      assert PostedInOrder(b[1..]) by {
        forall i, j | 0 <= i < j < |b[1..]| ensures b[1..][i].posted <= b[1..][j].posted {
          assert b[1..][i] == b[i + 1] && b[1..][j] == b[j + 1];
        }
      }
      if a[0] == b[0] && Seqs.IsSubsequence(a[1..], b[1..]) {
        SubsequenceInOrder(a[1..], b[1..]);
        Seqs.SubsequenceMembers(a[1..], b[1..]);
        forall i, j | 0 <= i < j < |a| ensures a[i].posted <= a[j].posted {
          assert a[j] == a[1..][j - 1];
          assert a[j] in b[1..];
          if i > 0 {
            assert a[i] == a[1..][i - 1];
          }
        }
      } else {
        SubsequenceInOrder(a, b[1..]);
      }
    }
  }

  // ---------------------------------------------------------------------
  // scrape_linkedin
  // ---------------------------------------------------------------------

  /** The log line of one search term: records kept and records dropped as
      already seen. */
  datatype Tally = Tally(valid: nat, skipped: nat)

  /** The extraction loop over all search terms, sharing one set of seen
      identifiers: a record is kept only when its identifier is new. */
  method ScrapeLinkedin(batches: seq<seq<Card>>) returns (jobs: seq<ScrapedJob>, tallies: seq<Tally>)
    ensures |tallies| == |batches|
    ensures Tallied(tallies, batches)
    ensures Dedup.KeysDistinct(jobs, Identifier)
    ensures ReadInOrder(Flatten(batches)) ==> PostedInOrder(jobs)
    ensures Seqs.IsSubsequence(jobs, AllExtracted(batches))
    ensures jobs == Dedup.DedupBy(AllExtracted(batches), Identifier)
  {
    ghost var goal := Dedup.DedupFrom(AllExtracted(batches), Identifier, {});
    jobs := [];
    tallies := [];
    var seen: set<string> := {};
    var t := 0;
    while t < |batches|
      invariant 0 <= t <= |batches|
      invariant jobs + Dedup.DedupFrom(AllExtracted(batches[t..]), Identifier, seen) == goal
      invariant |tallies| == t
      invariant Tallied(tallies, batches)
    {
      AllExtractedStep(batches, t);
      var tally;
      jobs, seen, tally := ScrapeTerm(batches[t], jobs, seen, AllExtracted(batches[t + 1..]), goal);
      TallyStep(tallies, tally, batches, t);
      tallies := tallies + [tally];
      t := t + 1;
    }
    assert batches[t..] == [];
    assert jobs == Dedup.DedupBy(AllExtracted(batches), Identifier);
    if ReadInOrder(Flatten(batches)) {
      AllExtractedFlat(batches);
      ExtractedInOrder(Flatten(batches));
      SubsequenceInOrder(jobs, AllExtracted(batches));
    }
  }

  /** `tallies` counts the records of the first `|tallies|` search terms. */
  ghost predicate Tallied(tallies: seq<Tally>, batches: seq<seq<Card>>) {
    |tallies| <= |batches| &&
    forall u :: 0 <= u < |tallies| ==> tallies[u].valid + tallies[u].skipped == |Extracted(batches[u])|
  }

  lemma TallyStep(tallies: seq<Tally>, tally: Tally, batches: seq<seq<Card>>, t: nat)
    requires t == |tallies| < |batches| && Tallied(tallies, batches)
    requires tally.valid + tally.skipped == |Extracted(batches[t])|
    ensures Tallied(tallies + [tally], batches)
  {
  }

  /** The card loop of one search term. `later` is what the remaining
      search terms will yield and `goal` the de-duplication of everything. */
  method ScrapeTerm(cards: seq<Card>, jobs: seq<ScrapedJob>, seen: set<string>,
                    ghost later: seq<ScrapedJob>, ghost goal: seq<ScrapedJob>)
    returns (jobs': seq<ScrapedJob>, seen': set<string>, tally: Tally)
    requires jobs + Dedup.DedupFrom(Extracted(cards) + later, Identifier, seen) == goal
    ensures jobs' + Dedup.DedupFrom(later, Identifier, seen') == goal
    ensures tally.valid + tally.skipped == |Extracted(cards)|
  {
    jobs', seen' := jobs, seen;
    var valid, skipped := 0, 0;
    var j := 0;
    assert cards[0..] == cards;
    while j < |cards|
      invariant 0 <= j <= |cards|
      invariant jobs' + Dedup.DedupFrom(Extracted(cards[j..]) + later, Identifier, seen') == goal
      invariant valid + skipped + |Extracted(cards[j..])| == |Extracted(cards)|
    {
      var data := Normalise(cards[j]);
      ghost var rest := Extracted(cards[j + 1..]) + later;
      CardStep(cards, j, later, seen');
      if data.Some? {
        var id := Identifier(data.value);
        if id in seen' {
          skipped := skipped + 1;
        } else {
          assert (jobs' + [data.value]) + Dedup.DedupFrom(rest, Identifier, seen' + {id})
              == jobs' + ([data.value] + Dedup.DedupFrom(rest, Identifier, seen' + {id}));
          seen' := seen' + {id};
          jobs' := jobs' + [data.value];
          valid := valid + 1;
        }
      }
      j := j + 1;
    }
    assert cards[j..] == [];
    assert Extracted(cards[j..]) + later == later;
    tally := Tally(valid, skipped);
  }

  /** Consuming card `j`: a card that yields no record changes nothing, a
      record with a seen identifier is dropped, a new one is kept. */
  lemma CardStep(cards: seq<Card>, j: nat, later: seq<ScrapedJob>, seen: set<string>)
    requires j < |cards|
    ensures var data := Normalise(cards[j]);
      var rest := Extracted(cards[j + 1..]) + later;
      Dedup.DedupFrom(Extracted(cards[j..]) + later, Identifier, seen) ==
        if data.None? then Dedup.DedupFrom(rest, Identifier, seen)
        else if Identifier(data.value) in seen then Dedup.DedupFrom(rest, Identifier, seen)
        else [data.value] + Dedup.DedupFrom(rest, Identifier, seen + {Identifier(data.value)})
    ensures |Extracted(cards[j..])| == (if Normalise(cards[j]).Some? then 1 else 0) + |Extracted(cards[j + 1..])|
  {
    var data := Normalise(cards[j]);
    var rest := Extracted(cards[j + 1..]) + later;
    ExtractedStep(cards, j);
    if data.Some? {
      assert Extracted(cards[j..]) + later == [data.value] + rest;
      Dedup.DedupStep(data.value, rest, Identifier, seen);
    } else {
      assert Extracted(cards[j..]) + later == rest;
    }
  }

  /** Every identifier that occurs is kept once, at its first occurrence. */
  lemma ScrapeKeepsFirstOccurrences(batches: seq<seq<Card>>, i: int)
    requires Dedup.FirstOfKey(AllExtracted(batches), Identifier, i)
    ensures AllExtracted(batches)[i] in Dedup.DedupBy(AllExtracted(batches), Identifier)
  {
  }

  // ---------------------------------------------------------------------
  // scrape_and_save
  // ---------------------------------------------------------------------

  /** The row `scrape_and_save` inserts for a record; `id` is assigned by
      the database. */
  function RowOf(j: ScrapedJob, id: nat): (r: Backend.Row)
    ensures r.id == id && r.title == j.title && r.company == j.company && r.location == Some(j.location)
    ensures r.description == j.description && r.url == j.url && r.salary == Some(j.salary)
    ensures r.posted == j.posted && r.isActive == Some(true)
  {
    Backend.Row(id, j.title, j.company, Some(j.location), j.description, j.url, Some(j.salary), j.posted, Some(true))
  }

  /** The existing-job query: same `url` (a missing url is compared with
      `IS NULL`), or same title, company and location. */
  function SameJob(row: Backend.Row, j: ScrapedJob): (r: bool)
    ensures r <==> Clash(row, RowOf(j, row.id))
  {
    row.url == j.url || (row.title == j.title && row.company == j.company && row.location == Some(j.location))
  }

  /** The row inserted for a record keeps a valid table valid, and the
      duplicate query finds it afterwards, so a repeat of the record is
      skipped even without the identifier set. */
  lemma InsertedRowIsFound(t: Backend.Table, j: ScrapedJob)
    ensures InTable(t + [RowOf(j, Backend.NextId(t))], j)
    ensures Backend.ValidTable(t) ==> Backend.ValidTable(t + [RowOf(j, Backend.NextId(t))])
  {
    var t' := t + [RowOf(j, Backend.NextId(t))];
    assert SameJob(t'[|t|], j);
  }

  predicate InTable(t: Backend.Table, j: ScrapedJob) {
    exists k :: 0 <= k < |t| && SameJob(t[k], j)
  }

  datatype Saved = Saved(table: Backend.Table, added: nat, skipped: nat)

  /** The insert loop from a table and a set of identifiers already seen in
      this batch. Rows added earlier in the loop are visible to the query
      (the session flushes before it queries). */
  function SaveFrom(t: Backend.Table, jobs: seq<ScrapedJob>, seen: set<string>): (r: Saved)
    ensures r.added + r.skipped == |jobs|
    ensures |r.table| == |t| + r.added && r.table[..|t|] == t
    ensures Backend.ValidTable(t) ==> Backend.ValidTable(r.table)
    decreases |jobs|
  {
    if jobs == [] then Saved(t, 0, 0)
    else
      var j := jobs[0];
      if InTable(t, j) || Identifier(j) in seen then
        var r := SaveFrom(t, jobs[1..], seen);
        Saved(r.table, r.added, r.skipped + 1)
      else
        var row := RowOf(j, Backend.NextId(t));
        var r := SaveFrom(t + [row], jobs[1..], seen + {Identifier(j)});
        assert r.table[..|t|] == (t + [row])[..|t|] == t;
        Saved(r.table, r.added + 1, r.skipped)
  }

  /** Two rows describe the same job by the duplicate query's test. */
  predicate Clash(a: Backend.Row, b: Backend.Row) {
    a.url == b.url || (a.title == b.title && a.company == b.company && a.location == b.location)
  }

  /** No row from position `from` on clashes with a row before it. */
  ghost predicate FreshFrom(table: Backend.Table, from: nat) {
    forall m, k :: 0 <= m < k < |table| && from <= k ==> !Clash(table[m], table[k])
  }

  /** No inserted row duplicates a row that was there before it, original or inserted. */
  lemma {:induction false} SaveAddsNoDuplicates(t: Backend.Table, jobs: seq<ScrapedJob>, seen: set<string>)
    ensures FreshFrom(SaveFrom(t, jobs, seen).table, |t|)
    decreases |jobs|
  {
    if jobs != [] {
      var j := jobs[0];
      if InTable(t, j) || Identifier(j) in seen {
        SaveAddsNoDuplicates(t, jobs[1..], seen);
      } else {
        var row := RowOf(j, Backend.NextId(t));
        var t' := t + [row];
        SaveAddsNoDuplicates(t', jobs[1..], seen + {Identifier(j)});
        var r := SaveFrom(t', jobs[1..], seen + {Identifier(j)});
        assert r.table[..|t'|] == t';
        forall m, k | 0 <= m < k < |r.table| && |t| <= k ensures !Clash(r.table[m], r.table[k]) {
          if k == |t| {
            assert r.table[m] == t'[m] == t[m] && r.table[k] == t'[k] == row;
            assert !SameJob(t[m], j);
          }
        }
      }
    }
  }

  /** `scrape_and_save` after `scrape_linkedin` returned `jobs`: nothing is
      done for an empty list; otherwise each record is skipped when the
      table already holds the same job or its identifier was seen earlier
      in the loop, and inserted otherwise. */
  method ScrapeAndSave(table: Backend.Table, jobs: seq<ScrapedJob>) returns (after: Backend.Table, added: nat, skipped: nat)
    ensures jobs == [] ==> after == table && added == 0 && skipped == 0
    ensures added + skipped == |jobs|
    ensures |after| == |table| + added && after[..|table|] == table
    ensures Backend.ValidTable(table) ==> Backend.ValidTable(after)
    ensures Saved(after, added, skipped) == SaveFrom(table, jobs, {})
  {
    if jobs == [] {
      return table, 0, 0;
    }
    after, added, skipped := table, 0, 0;
    var seen: set<string> := {};
    var i := 0;
    while i < |jobs|
      invariant 0 <= i <= |jobs|
      invariant var r := SaveFrom(after, jobs[i..], seen);
        SaveFrom(table, jobs, {}) == Saved(r.table, added + r.added, skipped + r.skipped)
    {
      var j := jobs[i];
      assert jobs[i..][0] == j && jobs[i..][1..] == jobs[i + 1..];
      var existing := Exists(after, j);
      var id := Identifier(j);
      if existing || id in seen {
        skipped := skipped + 1;
      } else {
        seen := seen + {id};
        after := after + [RowOf(j, Backend.NextId(after))];
        added := added + 1;
      }
      i := i + 1;
    }
    assert jobs[i..] == [];
  }

  /** `Job.query.filter(...).first()` is not None. */
  method Exists(t: Backend.Table, j: ScrapedJob) returns (found: bool)
    ensures found <==> InTable(t, j)
  {
    found := false;
    var k := 0;
    while k < |t|
      invariant 0 <= k <= |t|
      invariant found <==> exists m :: 0 <= m < k && SameJob(t[m], j)
    {
      if SameJob(t[k], j) {
        found := true;
      }
      k := k + 1;
    }
  }

  /** The skip rule for one record: when the table already holds the same
      job or its identifier was seen, the record is counted as skipped and
      the table is left to the rest of the loop; otherwise its row is the
      next one appended, under the next id. */
  lemma SaveDecision(t: Backend.Table, jobs: seq<ScrapedJob>, seen: set<string>)
    requires jobs != []
    ensures InTable(t, jobs[0]) || Identifier(jobs[0]) in seen ==>
      && SaveFrom(t, jobs, seen).table == SaveFrom(t, jobs[1..], seen).table
      && SaveFrom(t, jobs, seen).skipped == SaveFrom(t, jobs[1..], seen).skipped + 1
    ensures !InTable(t, jobs[0]) && Identifier(jobs[0]) !in seen ==>
      |SaveFrom(t, jobs, seen).table| > |t| && SaveFrom(t, jobs, seen).table[|t|] == RowOf(jobs[0], Backend.NextId(t))
  {
    var j := jobs[0];
    if !InTable(t, j) && Identifier(j) !in seen {
      var t' := t + [RowOf(j, Backend.NextId(t))];
      var r := SaveFrom(t', jobs[1..], seen + {Identifier(j)});
      assert r.table[..|t'|] == t';
      assert r.table[|t|] == t'[|t|];
    }
  }

  /** A batch of records already in the table, or repeated, adds nothing. */
  lemma SaveSkipsKnownJobs(t: Backend.Table, jobs: seq<ScrapedJob>, seen: set<string>)
    requires forall k :: 0 <= k < |jobs| ==> InTable(t, jobs[k]) || Identifier(jobs[k]) in seen
    ensures SaveFrom(t, jobs, seen) == Saved(t, 0, |jobs|)
    decreases |jobs|
  {
    if jobs != [] {
      assert forall k :: 0 <= k < |jobs| - 1 ==> jobs[1..][k] == jobs[k + 1];
      SaveSkipsKnownJobs(t, jobs[1..], seen);
    }
  }
}
