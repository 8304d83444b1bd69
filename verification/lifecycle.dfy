/** The link lifecycle across requests: any sequence of requests, handled
    one after another, keeps slugs unique, never removes a link or changes
    its slug or target, and never lowers a counter. */
module Lifecycle {
  import opened Wrappers
  import opened SlugGenerator
  import opened LinkStore
  import opened Gateway

  /** The requests that reach the core. */
  datatype Request =
    | Login(password: string)
    | ViewPanel(jar: Cookies, order: seq<int>)
    | CreateLink(jar: Cookies, target: string, draws: seq<seq<int>>, now: int)
    | Go(slug: string, requestBaseUrl: string)
    | Continue(slug: string)

  /** What the environment supplies is well formed: a panel request sees
      the rows in some order of the database's choosing, the random draws of
      a create request are well formed, and when that request reaches the
      redraw loop one of them is free (the code redraws until it finds one). */
  predicate Admissible(t: Table, req: Request) {
    && (req.ViewPanel? ==> IsListingOrder(req.order, |t|))
    && (req.CreateLink? ==>
         && AreDraws(req.draws)
         && (req.target != "" && CheckAdminCookie(req.jar).None? ==> HasFreeDrawFrom(t, req.draws, 0)))
  }

  /** Dispatch one request to its handler. `env` is the value of the
      `ADMIN_PASSWORD` environment variable, if set. */
  function Handle(env: Option<string>, t: Table, req: Request): (s: Step)
    requires Admissible(t, req)
    ensures Grows(t, s.table)
    ensures Valid(t) ==> Valid(s.table)
    ensures !req.CreateLink? ==> Slugs(s.table) == Slugs(t)
    ensures req.Login? || req.ViewPanel? ==> s.table == t
  {
    match req
    case Login(password) => Step(AdminDoLogin(password, AdminPassword(env)), t)
    case ViewPanel(jar, order) => Step(AdminPanel(jar, t, order), t)
    case CreateLink(jar, target, draws, now) => AdminCreate(jar, t, target, draws, now)
    case Go(slug, base) => AdPage(t, slug, base)
    case Continue(slug) => FinalRedirect(t, slug)
  }

  /** Every request of `reqs` is admissible in the table it meets. */
  predicate Runnable(env: Option<string>, t: Table, reqs: seq<Request>)
    decreases |reqs|
  {
    |reqs| == 0 ||
    (Admissible(t, reqs[0]) && Runnable(env, Handle(env, t, reqs[0]).table, reqs[1..]))
  }

  /** The table after handling `reqs` in order. */
  function Run(env: Option<string>, t: Table, reqs: seq<Request>): Table
    requires Runnable(env, t, reqs)
    decreases |reqs|
  {
    if |reqs| == 0 then t
    else Run(env, Handle(env, t, reqs[0]).table, reqs[1..])
  }

  /** Whatever requests arrive, the table invariant holds afterwards and the
      table only grows: no link vanishes, no slug, target, id or creation
      time changes, and no counter goes down. */
  lemma {:induction false} RunPreservesInvariants(env: Option<string>, t: Table, reqs: seq<Request>)
    requires Runnable(env, t, reqs)
    ensures Valid(t) ==> Valid(Run(env, t, reqs))
    ensures Grows(t, Run(env, t, reqs))
    decreases |reqs|
  {
    if |reqs| > 0 {
      var t1 := Handle(env, t, reqs[0]).table;
      RunPreservesInvariants(env, t1, reqs[1..]);
      GrowsTransitive(t, t1, Run(env, t1, reqs[1..]));
    }
  }

  /** `k` visits of the same slug, each from the same base address. */
  function Visits(slug: string, base: string, k: nat): seq<Request>
  {
    seq(k, _ => Go(slug, base))
  }

  /** Visiting a link `k` times raises its click counter by exactly `k` and
      changes nothing else in the table. */
  lemma {:induction false} RepeatedVisitsCount(env: Option<string>, t: Table, i: nat, base: string, k: nat)
    requires Valid(t) && i < |t|
    ensures Runnable(env, t, Visits(t[i].slug, base, k))
    ensures BumpedRow(t, Run(env, t, Visits(t[i].slug, base, k)), i, k, 0)
    decreases k
  {
    var reqs := Visits(t[i].slug, base, k);
    if k > 0 {
      FindLocatesRow(t, i);
      var t1 := AdPage(t, t[i].slug, base).table;
      assert Handle(env, t, reqs[0]).table == t1;
      assert reqs[1..] == Visits(t1[i].slug, base, k - 1);
      RepeatedVisitsCount(env, t1, i, base, k - 1);
    }
  }

  /** `k` completions of the same slug. */
  function Completions(slug: string, k: nat): seq<Request>
  {
    seq(k, _ => Continue(slug))
  }

  /** Completing a link `k` times raises its completion counter by exactly
      `k` and changes nothing else in the table. */
  lemma {:induction false} RepeatedCompletionsCount(env: Option<string>, t: Table, i: nat, k: nat)
    requires Valid(t) && i < |t|
    ensures Runnable(env, t, Completions(t[i].slug, k))
    ensures BumpedRow(t, Run(env, t, Completions(t[i].slug, k)), i, 0, k)
    decreases k
  {
    var reqs := Completions(t[i].slug, k);
    if k > 0 {
      FindLocatesRow(t, i);
      var t1 := FinalRedirect(t, t[i].slug).table;
      assert Handle(env, t, reqs[0]).table == t1;
      assert reqs[1..] == Completions(t1[i].slug, k - 1);
      RepeatedCompletionsCount(env, t1, i, k - 1);
    }
  }

  /** The whole life of one link: the admin logs in with the right password,
      creates a link with the cookie received, a visitor opens the short link
      and then follows the continue link. The link starts with both counters
      at 0, ends with both at 1, the visitor lands on the target, and the
      rows that existed before are untouched. */
  lemma EndToEnd(env: Option<string>, jar: Cookies, t: Table, target: string,
                 draws: seq<seq<int>>, now: int, base: string)
    requires AdminPassword(env) != "" && target != ""
    requires Valid(t) && AreDraws(draws) && HasFreeDrawFrom(t, draws, 0)
    ensures
      var login := AdminDoLogin(AdminPassword(env), AdminPassword(env));
      var created := AdminCreate(ReceiveCookies(jar, login), t, target, draws, now);
      && |created.table| == |t| + 1
      && var slug := created.table[|t|].slug;
      && slug == Candidate(draws, FirstFree(t, draws, 0))
      && created.response == LinkCreated(BaseUrl + "/go/" + slug)
      && created.table[|t|].clicks == 0 && created.table[|t|].completed == 0
      && var visited := AdPage(created.table, slug, base);
      && visited.response == Interstitial(RStrip(base, '/') + "/redirect/" + slug)
      && var done := FinalRedirect(visited.table, slug);
      && done.response == Redirect(target, TemporaryRedirect, None)
      && |done.table| == |t| + 1
      && done.table[..|t|] == t
      && done.table[|t|].clicks == 1 && done.table[|t|].completed == 1
  {
  }

  /** Nothing keeps completions behind visits: a link whose counters are
      equal, followed straight to its continue link, ends with more
      completions than clicks. */
  lemma CompletionCanOutrunVisits(t: Table, i: nat)
    requires Valid(t) && i < |t| && t[i].clicks == t[i].completed
    ensures var t' := FinalRedirect(t, t[i].slug).table;
      t'[i].completed > t'[i].clicks
  {
    FindLocatesRow(t, i);
  }
}
