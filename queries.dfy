/** The data transformations of lib/database/queries.ts. Every query is a
    call to the hosted database, so its response is an input here; what the
    model keeps is what the code does with it: the bounded retry wrapped
    around every query, the null mapping of the profile query, the grouping
    and stats reduces, the technology join lists and the contact-form
    result. */
module Queries {
  import opened Wrappers
  import Grouping

  const MAX_RETRIES: nat := 3
  const RETRY_DELAY: int := 1000

  /** How one call of an async operation settles. */
  datatype Outcome<T> = Returned(value: T) | Threw(error: string)

  // ---------------------------------------------------------------------
  // withRetry

  /** `withRetry(operation, retries)`: the settled result and how many times
      the operation was called, when its successive calls settle as
      `attempts` says. */
  function WithRetry<T>(attempts: seq<Outcome<T>>, retries: nat): (r: (Outcome<T>, nat))
    requires |attempts| > retries
    ensures 1 <= r.1 <= retries + 1
    ensures r.0 == attempts[r.1 - 1]
    ensures forall j :: 0 <= j < r.1 - 1 ==> attempts[j].Threw?
    ensures r.0.Threw? ==> r.1 == retries + 1
    decreases retries
  {
    if attempts[0].Returned? then (attempts[0], 1)
    else if retries > 0 then
      var (o, calls) := WithRetry(attempts[1..], retries - 1);
      (o, calls + 1)
    else (attempts[0], 1)
  }

  /** With the default budget, the operation runs at most four times; the
      first result it returns is the answer; an error surfaces only when all
      four calls threw, and it is the error of the fourth. */
  lemma RetryBudget<T>(attempts: seq<Outcome<T>>)
    requires |attempts| > MAX_RETRIES
    ensures WithRetry(attempts, MAX_RETRIES).1 <= 4
    ensures WithRetry(attempts, MAX_RETRIES).0.Returned? <==> exists j :: 0 <= j < 4 && attempts[j].Returned?
    ensures WithRetry(attempts, MAX_RETRIES).0.Threw? ==> WithRetry(attempts, MAX_RETRIES).0 == attempts[3]
  {
    var (o, calls) := WithRetry(attempts, MAX_RETRIES);
    if o.Threw? {
      assert calls == 4;
      assert forall j :: 0 <= j < 4 ==> attempts[j].Threw?;
    }
  }

  /** An operation that never throws is called exactly once. */
  lemma NeverThrowsRunsOnce<T>(attempts: seq<Outcome<T>>, retries: nat)
    requires |attempts| > retries
    requires attempts[0].Returned?
    ensures WithRetry(attempts, retries) == (attempts[0], 1)
  {
  }

  // ---------------------------------------------------------------------
  // getProfile

  datatype Profile = Profile(id: string, name: string, title: string, bio: string,
                             imageUrl: Option<string>, email: string, phone: Option<string>,
                             location: Option<string>, createdAt: string, updatedAt: string)

  /** What a `.single()` select answers: the row, or an error with its code. */
  datatype SingleResponse<T> = Row(row: T) | Failed(code: string, message: string)

  /** The code the database client reports when `.single()` found no row. */
  const NO_ROWS: string := "PGRST116"

  /** One call of the operation `getProfile` retries. */
  function ProfileAttempt(resp: SingleResponse<Profile>): (o: Outcome<Option<Profile>>)
    ensures resp.Row? ==> o == Returned(Some(resp.row))
    ensures resp.Failed? && resp.code == NO_ROWS ==> o == Returned(None)
    ensures resp.Failed? && resp.code != NO_ROWS ==> o.Threw?
  {
    match resp
    case Row(p) => Returned(Some(p))
    case Failed(code, message) =>
      if code == NO_ROWS then Returned(None) else Threw("Failed to fetch profile: " + message)
  }

  /** `getProfile` when its successive queries get the given responses. */
  function GetProfile(responses: seq<SingleResponse<Profile>>): (r: (Outcome<Option<Profile>>, nat))
    requires |responses| > MAX_RETRIES
    ensures 1 <= r.1 <= MAX_RETRIES + 1
    ensures r.0.Threw? ==> r.1 == MAX_RETRIES + 1
    ensures responses[0].Row? ==> r == (Returned(Some(responses[0].row)), 1)
  {
    WithRetry(seq(|responses|, i requires 0 <= i < |responses| => ProfileAttempt(responses[i])), MAX_RETRIES)
  }

  /** "No rows" is a null profile, answered at once without a retry; any other
      error is retried, and thrown only after four failed queries. */
  lemma GetProfileOutcomes(responses: seq<SingleResponse<Profile>>)
    requires |responses| > MAX_RETRIES
    ensures responses[0].Failed? && responses[0].code == NO_ROWS ==> GetProfile(responses) == (Returned(None), 1)
    ensures responses[0].Row? ==> GetProfile(responses) == (Returned(Some(responses[0].row)), 1)
    ensures (forall j :: 0 <= j <= MAX_RETRIES ==> responses[j].Failed? && responses[j].code != NO_ROWS) ==>
              GetProfile(responses).0.Threw? && GetProfile(responses).1 == 4
  {
    var attempts := seq(|responses|, i requires 0 <= i < |responses| => ProfileAttempt(responses[i]));
    assert attempts[0] == ProfileAttempt(responses[0]);
    if forall j :: 0 <= j <= MAX_RETRIES ==> responses[j].Failed? && responses[j].code != NO_ROWS {
      assert forall j :: 0 <= j <= MAX_RETRIES ==> attempts[j] == ProfileAttempt(responses[j]);
      RetryBudget(attempts);
    }
  }

  // ---------------------------------------------------------------------
  // Technology lists of experiences and projects

  datatype Technology = Technology(id: string, name: string, iconName: string,
                                   category: Option<string>, createdAt: string)

  /** The answer of a join query: an error, or one entry per join row whose
      embedded technology may be null. */
  datatype JoinResponse = JoinError(message: string) | JoinRows(rows: seq<Option<Technology>>)

  /** `techData.map(item => item.technologies).filter(Boolean)`, or `[]` when
      the join query failed. */
  function TechnologiesOf(resp: JoinResponse): (r: seq<Technology>)
    ensures resp.JoinError? ==> r == []
    ensures resp.JoinRows? ==> |r| <= |resp.rows|
    ensures resp.JoinRows? ==> forall t :: t in r <==> Some(t) in resp.rows
    decreases if resp.JoinRows? then |resp.rows| else 0
  {
    match resp
    case JoinError(_) => []
    case JoinRows(rows) =>
      if rows == [] then []
      else
        var rest := TechnologiesOf(JoinRows(rows[1..]));
        assert forall t :: Some(t) in rows <==> rows[0] == Some(t) || Some(t) in rows[1..];
        if rows[0].Some? then [rows[0].value] + rest else rest
  }

  /** Appending a join row appends its technology, if any, at the end: the
      list keeps the join's order and every non-null entry, repeats
      included. With `TechnologiesOf(JoinRows([])) == []` this determines
      the list. */
  lemma {:induction false} TechnologiesOfAppend(rows: seq<Option<Technology>>, x: Option<Technology>)
    ensures TechnologiesOf(JoinRows(rows + [x]))
         == TechnologiesOf(JoinRows(rows)) + (if x.Some? then [x.value] else [])
    decreases |rows|
  {
    if rows == [] {
      assert rows + [x] == [x];
      assert [x][1..] == [];
    } else {
      assert (rows + [x])[0] == rows[0];
      assert (rows + [x])[1..] == rows[1..] + [x];
      TechnologiesOfAppend(rows[1..], x);
    }
  }

  /** An experience or project row with its technologies attached. */
  datatype WithTechnologies<R> = WithTechnologies(row: R, technologies: seq<Technology>)

  /** `Promise.all` over the rows: each row keeps its place and gets the
      technologies of its own join query. */
  function AttachTechnologies<R>(rows: seq<R>, joins: seq<JoinResponse>): (r: seq<WithTechnologies<R>>)
    requires |joins| == |rows|
    ensures |r| == |rows|
    ensures forall i :: 0 <= i < |rows| ==> r[i].row == rows[i] && r[i].technologies == TechnologiesOf(joins[i])
  {
    seq(|rows|, i requires 0 <= i < |rows| => WithTechnologies(rows[i], TechnologiesOf(joins[i])))
  }

  /** A failed join leaves its row in place with no technologies. */
  lemma JoinFailureIsEmptyList<R>(rows: seq<R>, joins: seq<JoinResponse>, i: nat)
    requires |joins| == |rows| && i < |rows|
    requires joins[i].JoinError?
    ensures AttachTechnologies(rows, joins)[i] == WithTechnologies(rows[i], [])
  {
  }

  // ---------------------------------------------------------------------
  // Fun facts by category

  datatype FunFact = FunFact(id: string, category: string, categoryIconName: string,
                             name: string, iconName: string, sortOrder: int, createdAt: string)

  datatype FunFactsByCategory = FunFactsByCategory(category: string, categoryIconName: string, items: seq<FunFact>)

  function FactCategory(f: FunFact): string { f.category }

  /** A group as the reduce builds it: the icon name is taken when the group
      is opened, from the fact that opened it. */
  function ToFunFactGroup(g: Grouping.Group<FunFact>): FunFactsByCategory {
    FunFactsByCategory(g.key, if g.items == [] then "" else g.items[0].categoryIconName, g.items)
  }

  /** The fun-fact groups of the fetched rows. */
  function FunFactGroups(facts: seq<FunFact>): (r: seq<FunFactsByCategory>)
    ensures |r| == |Grouping.GroupBy(facts, FactCategory)|
    ensures forall i :: 0 <= i < |r| ==> r[i] == ToFunFactGroup(Grouping.GroupBy(facts, FactCategory)[i])
  {
    var gs := Grouping.GroupBy(facts, FactCategory);
    seq(|gs|, i requires 0 <= i < |gs| => ToFunFactGroup(gs[i]))
  }

  /** The reduce of `getFunFactsByCategory`, as the source runs it. */
  method GroupFunFacts(facts: seq<FunFact>) returns (groups: seq<FunFactsByCategory>)
    ensures groups == FunFactGroups(facts)
  {
    var gs := Grouping.GroupRows(facts, FactCategory);
    groups := [];
    for i := 0 to |gs|
      invariant |groups| == i
      invariant forall j :: 0 <= j < i ==> groups[j] == ToFunFactGroup(gs[j])
    {
      groups := groups + [ToFunFactGroup(gs[i])];
    }
  }

  /** Each fun-fact group holds exactly the facts of its category in input
      order, and its icon name is that of the first fact of the category;
      later facts' icon names are ignored. */
  lemma FunFactGroupSpec(facts: seq<FunFact>, i: nat)
    requires i < |FunFactGroups(facts)|
    ensures var g := FunFactGroups(facts)[i];
            g.items == Grouping.Only(facts, g.category, FactCategory) &&
            exists n :: 0 <= n < |facts| && facts[n].category == g.category &&
                        g.categoryIconName == facts[n].categoryIconName &&
                        forall j :: 0 <= j < n ==> facts[j].category != g.category
  {
    var gs := Grouping.GroupBy(facts, FactCategory);
    Grouping.GroupBySpec(facts, FactCategory);
    Grouping.GroupHeadIsFirstRow(facts, FactCategory, i);
    assert FunFactGroups(facts)[i] == ToFunFactGroup(gs[i]);
  }

  /** The categories of the fun-fact groups: one group per distinct
      category, pairwise distinct, in order of first occurrence, and every
      fact sits in the group of its own category. */
  lemma FunFactCategoriesSpec(facts: seq<FunFact>)
    ensures |FunFactGroups(facts)| == |Grouping.KeySet(facts, FactCategory)|
    ensures forall i, j :: 0 <= i < j < |FunFactGroups(facts)| ==>
              FunFactGroups(facts)[i].category != FunFactGroups(facts)[j].category
    ensures |Grouping.FirstOccurrences(Grouping.KeysOf(facts, FactCategory))| == |FunFactGroups(facts)|
    ensures forall i :: 0 <= i < |FunFactGroups(facts)| ==>
              FunFactGroups(facts)[i].category == Grouping.FirstOccurrences(Grouping.KeysOf(facts, FactCategory))[i]
    ensures forall n :: 0 <= n < |facts| ==>
              exists i :: 0 <= i < |FunFactGroups(facts)| && FunFactGroups(facts)[i].category == facts[n].category &&
                          facts[n] in FunFactGroups(facts)[i].items
  {
    var gs := Grouping.GroupBy(facts, FactCategory);
    var r := FunFactGroups(facts);
    Grouping.GroupBySpec(facts, FactCategory);
    Grouping.GroupCount(facts, FactCategory);
    assert |Grouping.Keys(gs)| == |gs|;
    forall i | 0 <= i < |r|
      ensures r[i].category == Grouping.FirstOccurrences(Grouping.KeysOf(facts, FactCategory))[i]
    {
      assert Grouping.Keys(gs)[i] == gs[i].key;
    }
    forall i, j | 0 <= i < j < |r| ensures r[i].category != r[j].category {
      assert Grouping.Keys(gs)[i] == gs[i].key && Grouping.Keys(gs)[j] == gs[j].key;
    }
    forall n | 0 <= n < |facts|
      ensures exists i :: 0 <= i < |r| && r[i].category == facts[n].category && facts[n] in r[i].items
    {
      Grouping.RowInItsGroup(facts, FactCategory, n);
      var i :| 0 <= i < |gs| && gs[i].key == FactCategory(facts[n]) && facts[n] in gs[i].items;
      assert r[i] == ToFunFactGroup(gs[i]);
    }
  }

  // ---------------------------------------------------------------------
  // Technologies by category

  datatype TechnologiesByCategory = TechnologiesByCategory(category: string, technologies: seq<Technology>)

  /** `tech.category || "Other"`: null and the empty string both fall back. */
  function TechCategory(t: Technology): (c: string)
    ensures c != ""
    ensures t.category.Some? && t.category.value != "" ==> c == t.category.value
    ensures t.category.None? || t.category.value == "" ==> c == "Other"
  {
    if t.category.Some? && t.category.value != "" then t.category.value else "Other"
  }

  function ToTechGroup(g: Grouping.Group<Technology>): TechnologiesByCategory {
    TechnologiesByCategory(g.key, g.items)
  }

  /** The reduce of `getTechnologiesByCategory`, as the source runs it. */
  method GroupTechnologies(techs: seq<Technology>) returns (groups: seq<TechnologiesByCategory>)
    ensures |groups| == |Grouping.GroupBy(techs, TechCategory)|
    ensures forall i :: 0 <= i < |groups| ==> groups[i] == ToTechGroup(Grouping.GroupBy(techs, TechCategory)[i])
  {
    var gs := Grouping.GroupRows(techs, TechCategory);
    groups := [];
    for i := 0 to |gs|
      invariant |groups| == i
      invariant forall j :: 0 <= j < i ==> groups[j] == ToTechGroup(gs[j])
    {
      groups := groups + [ToTechGroup(gs[i])];
    }
  }

  /** A technology without a category, or with an empty one, is filed under
      "Other", together with any technology whose category is literally
      "Other". */
  lemma UncategorisedGoToOther(techs: seq<Technology>, n: nat)
    requires n < |techs| && (techs[n].category.None? || techs[n].category.value == "")
    ensures exists i :: 0 <= i < |Grouping.GroupBy(techs, TechCategory)| &&
                        Grouping.GroupBy(techs, TechCategory)[i].key == "Other" &&
                        techs[n] in Grouping.GroupBy(techs, TechCategory)[i].items
  {
    Grouping.RowInItsGroup(techs, TechCategory, n);
  }

  // ---------------------------------------------------------------------
  // getPortfolioStats

  datatype StatRow = StatRow(metricName: string, metricValue: int)

  /** The metric map after the rows have been applied in order. */
  function LastWins(rows: seq<StatRow>): (m: map<string, int>)
    ensures rows != [] ==> rows[|rows| - 1].metricName in m
    ensures rows != [] ==> m[rows[|rows| - 1].metricName] == rows[|rows| - 1].metricValue
    ensures rows == [] ==> m == map[]
    decreases |rows|
  {
    if rows == [] then map[]
    else LastWins(rows[..|rows| - 1])[rows[|rows| - 1].metricName := rows[|rows| - 1].metricValue]
  }

  /** The stats reduce: `acc[stat.metric_name] = stat.metric_value` per row. */
  method PortfolioStats(rows: seq<StatRow>) returns (acc: map<string, int>)
    ensures acc == LastWins(rows)
  {
    acc := map[];
    for n := 0 to |rows|
      invariant acc == LastWins(rows[..n])
    {
      acc := acc[rows[n].metricName := rows[n].metricValue];
      assert rows[..n + 1][..n] == rows[..n];
    }
    assert rows[..|rows|] == rows;
  }

  /** The map's keys are exactly the metric names of the rows. */
  lemma {:induction false} LastWinsKeys(rows: seq<StatRow>)
    ensures forall k :: k in LastWins(rows) <==> exists j :: 0 <= j < |rows| && rows[j].metricName == k
    decreases |rows|
  {
    if rows != [] {
      var init := rows[..|rows| - 1];
      var last := rows[|rows| - 1];
      LastWinsKeys(init);
      forall k ensures k in LastWins(rows) <==> exists j :: 0 <= j < |rows| && rows[j].metricName == k {
        if k in LastWins(rows) && k != last.metricName {
          assert LastWins(rows) == LastWins(init)[last.metricName := last.metricValue];
          assert k in LastWins(init);
          var j :| 0 <= j < |init| && init[j].metricName == k;
          assert rows[j] == init[j];
        }
        if exists j :: 0 <= j < |rows| && rows[j].metricName == k {
          var j :| 0 <= j < |rows| && rows[j].metricName == k;
          if j < |rows| - 1 {
            assert init[j] == rows[j];
          }
        }
      }
    }
  }

  /** Each metric maps to the value of the last row with that name: later
      duplicates overwrite earlier ones. */
  lemma {:induction false} LastWinsValue(rows: seq<StatRow>, j: nat)
    requires j < |rows|
    requires forall j' :: j < j' < |rows| ==> rows[j'].metricName != rows[j].metricName
    ensures rows[j].metricName in LastWins(rows)
    ensures LastWins(rows)[rows[j].metricName] == rows[j].metricValue
    decreases |rows|
  {
    if j < |rows| - 1 {
      var init := rows[..|rows| - 1];
      assert init[j] == rows[j];
      forall j' | j < j' < |init| ensures init[j'].metricName != init[j].metricName {
        assert init[j'] == rows[j'];
      }
      LastWinsValue(init, j);
    }
  }

  // ---------------------------------------------------------------------
  // submitContactForm

  datatype ContactForm = ContactForm(name: string, email: string, subject: string, message: string)

  datatype ConnectionInsert = ConnectionInsert(name: string, email: string, subject: string,
                                               message: string, status: string)

  datatype SubmitResult = SubmitResult(success: bool, error: Option<string>)

  /** The row the form inserts: the form's four fields, marked unread. */
  function ContactRow(form: ContactForm): (row: ConnectionInsert)
    ensures row.status == "unread"
    ensures row.name == form.name && row.email == form.email
    ensures row.subject == form.subject && row.message == form.message
  {
    ConnectionInsert(form.name, form.email, form.subject, form.message, "unread")
  }

  // ---------------------------------------------------------------------
  // updatePortfolioStat

  /** What one `increment_stat` RPC call answers when it settles: no error,
      or an error object. */
  datatype RpcResponse = RpcOk | RpcError(message: string)

  /** One call of the operation `updatePortfolioStat` retries: an error in
      the RPC's answer is only logged, so the call returns normally; it
      throws only when the RPC call itself rejects. */
  function StatAttempt(call: Outcome<RpcResponse>): (o: Outcome<()>)
    ensures o.Returned? <==> call.Returned?
  {
    match call
    case Returned(_) => Returned(())
    case Threw(e) => Threw(e)
  }

  /** `updatePortfolioStat`: the retry wrapper around `StatAttempt`, given
      how the successive RPC calls settle. It throws only when four RPC
      calls in a row rejected. */
  function UpdatePortfolioStat(calls: seq<Outcome<RpcResponse>>): (r: (Outcome<()>, nat))
    requires |calls| > MAX_RETRIES
    ensures r.0.Threw? <==> forall j :: 0 <= j <= MAX_RETRIES ==> calls[j].Threw?
    ensures 1 <= r.1 <= MAX_RETRIES + 1
  {
    var attempts := seq(|calls|, i requires 0 <= i < |calls| => StatAttempt(calls[i]));
    RetryBudget(attempts);
    assert forall j :: 0 <= j < |calls| ==> (attempts[j].Returned? <==> calls[j].Returned?);
    WithRetry(attempts, MAX_RETRIES)
  }

  /** One call of the operation `submitContactForm` retries: `insertError`
      is whether the insert reported an error, `statUpdate` how
      `updatePortfolioStat` settled (it is only awaited after a successful
      insert). Every failure is caught inside, so the call never throws. */
  function SubmitAttempt(insertError: bool, statUpdate: Outcome<()>): (o: Outcome<SubmitResult>)
    ensures o.Returned?
    ensures o.value.success <==> !insertError && statUpdate.Returned?
    ensures !o.value.success ==> o.value.error == Some("Failed to submit form")
    ensures o.value.success ==> o.value.error == None
  {
    if insertError then Returned(SubmitResult(false, Some("Failed to submit form")))
    else if statUpdate.Threw? then Returned(SubmitResult(false, Some("Failed to submit form")))
    else Returned(SubmitResult(true, None))
  }

  /** A stats RPC that answers with an error does not fail the submission:
      the error is only logged and the form still reports success. */
  lemma StatRpcErrorStillSucceeds(message: string, later: seq<Outcome<RpcResponse>>)
    requires |later| >= MAX_RETRIES
    ensures SubmitAttempt(false, UpdatePortfolioStat([Returned(RpcError(message))] + later).0)
         == Returned(SubmitResult(true, None))
  {
  }

  /** `submitContactForm` never throws and is never retried: the retry
      wrapper calls it once and passes its result through. */
  lemma SubmitContactFormOnce(insertError: bool, statUpdate: Outcome<()>, later: seq<Outcome<SubmitResult>>)
    requires |later| >= MAX_RETRIES
    ensures WithRetry([SubmitAttempt(insertError, statUpdate)] + later, MAX_RETRIES)
         == (SubmitAttempt(insertError, statUpdate), 1)
  {
  }
}
