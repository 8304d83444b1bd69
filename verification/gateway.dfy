/** The request handlers of the link gateway: admin login, the admin cookie
    gate, the admin panel listing, link creation, the visit page and the
    final redirect. Each handler is a pure function from the table (and the
    request's inputs) to the response and the table after the request. */
module Gateway {
  import opened Wrappers
  import opened SlugGenerator
  import opened LinkStore

  /** Public address used to build short links. */
  const BaseUrl: string := "https://telegram-93bm.onrender.com"

  /** Admin password used when the environment does not set one. */
  const DefaultAdminPassword: string := "changeme"

  /** Name, value and lifetime (seconds) of the admin cookie. */
  const AdminCookie: string := "admin_session"
  const AdminCookieValue: string := "true"
  const AdminCookieMaxAge: nat := 86400

  /** Status of the redirect after a successful login. */
  const Found: nat := 302

  /** Status of a redirect response built without an explicit status. */
  const TemporaryRedirect: nat := 307

  const AdminOnly: string := "Forbidden: Admin only"
  const WrongPassword: string := "Forbidden: Wrong password"

  /** A `Set-Cookie` instruction attached to a response. */
  datatype CookieSetting = CookieSetting(key: string, value: string, maxAge: nat, httpOnly: bool)

  /** One line of the admin statistics table. */
  datatype Row = Row(slug: string, target: string, clicks: nat, completed: nat)

  /** What a handler answers; rendered pages are reduced to the data they show.
      `Unprocessable` is the framework's answer when a required form field is
      missing or empty, given before the handler runs. */
  datatype Response =
    | Unprocessable
    | Forbidden(detail: string)
    | InvalidLink
    | Redirect(location: string, status: nat, setCookie: Option<CookieSetting>)
    | Panel(rows: seq<Row>)
    | LinkCreated(shortUrl: string)
    | Interstitial(continueUrl: string)
  {
    /** The HTTP status code of the response. */
    function Status(): nat {
      match this
      case Unprocessable => 422
      case Forbidden(_) => 403
      case InvalidLink => 404
      case Redirect(_, status, _) => status
      case _ => 200
    }
  }

  /** A handler's answer together with the table after the request. */
  datatype Step = Step(response: Response, table: Table)

  /** The cookies a request carries, by name. */
  type Cookies = map<string, string>

  /** The configured admin password: the environment's value if it is set. */
  function AdminPassword(env: Option<string>): (p: string)
    ensures env.Some? ==> p == env.value
    ensures env.None? ==> p == DefaultAdminPassword
  {
    match env
    case Some(p) => p
    case None => DefaultAdminPassword
  }

  /** `cookies.get(name)`. */
  function CookieValue(jar: Cookies, name: string): Option<string> {
    if name in jar then Some(jar[name]) else None
  }

  /** The admin gate: nothing when the request may proceed, otherwise the
      403 response that ends it. */
  function CheckAdminCookie(jar: Cookies): (denial: Option<Response>)
    ensures denial.None? <==> AdminCookie in jar && jar[AdminCookie] == "true"
    ensures denial.Some? ==> denial.value == Forbidden(AdminOnly) && denial.value.Status() == 403
  {
    if CookieValue(jar, AdminCookie) != Some(AdminCookieValue) then Some(Forbidden(AdminOnly)) else None
  }

  /** The cookie jar of a client after it received `r`. */
  function ReceiveCookies(jar: Cookies, r: Response): (jar': Cookies)
    ensures !(r.Redirect? && r.setCookie.Some?) ==> jar' == jar
  {
    if r.Redirect? && r.setCookie.Some? then jar[r.setCookie.value.key := r.setCookie.value.value] else jar
  }

  /** The login form's submission; a missing field arrives as "". An empty
      password never reaches the handler (422). A wrong password is refused
      with 403 and sets no cookie; the right one redirects to the panel and
      hands out the admin cookie for one day. */
  function AdminDoLogin(password: string, adminPassword: string): (r: Response)
    ensures password == "" <==> r.Status() == 422
    ensures password != "" && password != adminPassword <==> r.Status() == 403
    ensures password != "" && password != adminPassword ==> r == Forbidden(WrongPassword)
    ensures r.Redirect? <==> password != "" && password == adminPassword
    ensures r.Redirect? ==> r.location == "/admin/panel" && r.status == Found
    ensures r.Redirect? ==>
      r.setCookie == Some(CookieSetting(AdminCookie, AdminCookieValue, AdminCookieMaxAge, false))
  {
    if password == "" then Unprocessable
    else if password != adminPassword then Forbidden(WrongPassword)
    else Redirect("/admin/panel", Found, Some(CookieSetting(AdminCookie, AdminCookieValue, AdminCookieMaxAge, false)))
  }

  /** A client that logs in with the right password passes the admin gate
      afterwards, whatever cookies it held before. */
  lemma LoginOpensGate(jar: Cookies, adminPassword: string)
    requires adminPassword != ""
    ensures CheckAdminCookie(ReceiveCookies(jar, AdminDoLogin(adminPassword, adminPassword))).None?
  {
  }

  /** A refused login (wrong or empty password) leaves the client's cookies,
      and so its standing at the gate, as they were. */
  lemma FailedLoginGrantsNothing(jar: Cookies, password: string, adminPassword: string)
    requires password == "" || password != adminPassword
    ensures ReceiveCookies(jar, AdminDoLogin(password, adminPassword)) == jar
    ensures CheckAdminCookie(ReceiveCookies(jar, AdminDoLogin(password, adminPassword))) == CheckAdminCookie(jar)
  {
  }

  /** With `ADMIN_PASSWORD` set to the empty string no login can succeed:
      the only matching password is the empty one, which the form rejects. */
  lemma EmptyAdminPasswordLocksOut(jar: Cookies, password: string)
    ensures !AdminDoLogin(password, AdminPassword(Some(""))).Redirect?
    ensures ReceiveCookies(jar, AdminDoLogin(password, AdminPassword(Some("")))) == jar
  {
  }

  /** Only the literal value "true" opens the gate: any other value of the
      admin cookie, or its absence, is refused. */
  lemma GateRefusesOtherValues(jar: Cookies, v: string)
    requires v != AdminCookieValue
    ensures CheckAdminCookie(jar[AdminCookie := v]) == Some(Forbidden(AdminOnly))
    ensures AdminCookie !in jar ==> CheckAdminCookie(jar).Some?
  {
  }

  /** The statistics line shown for a link. */
  function RowOf(l: Link): Row {
    Row(l.slug, l.target, l.clicks, l.completed)
  }

  /** The order in which the database returns the `n` rows of an unordered
      `SELECT`: each position names a different row. */
  predicate IsListingOrder(order: seq<int>, n: nat) {
    && |order| == n
    && (forall k :: 0 <= k < n ==> 0 <= order[k] < n)
    && (forall k1, k2 :: 0 <= k1 < k2 < n ==> order[k1] != order[k2])
  }

  /** The first `m` positions of `order` name `m` different rows. */
  lemma {:induction false} ListedCount(order: seq<int>, m: nat)
    requires m <= |order|
    requires forall k1, k2 :: 0 <= k1 < k2 < m ==> order[k1] != order[k2]
    ensures |(set k | 0 <= k < m :: order[k])| == m
  {
    if m > 0 {
      var before := set k | 0 <= k < m - 1 :: order[k];
      ListedCount(order, m - 1);
      assert (set k | 0 <= k < m :: order[k]) == before + {order[m - 1]};
      assert order[m - 1] !in before;
    }
  }

  /** The row positions `0 .. n-1`. */
  function Positions(n: nat): (r: set<int>)
    ensures forall i :: i in r <==> 0 <= i < n
    ensures |r| == n
  {
    if n == 0 then {} else Positions(n - 1) + {n - 1}
  }

  /** A subset as large as its superset is the whole superset. */
  lemma SameSizeSubset(a: set<int>, b: set<int>)
    requires a <= b && |a| == |b|
    ensures a == b
  {
    var rest := b - a;
    assert b == a + rest;
    assert a * rest == {};
    assert rest == {};
  }

  /** Pigeonhole: a listing order names every row. */
  lemma ListingOrderCovers(order: seq<int>, n: nat)
    requires IsListingOrder(order, n)
    ensures forall i :: 0 <= i < n ==> i in order
  {
    var listed := set k | 0 <= k < n :: order[k];
    ListedCount(order, n);
    SameSizeSubset(listed, Positions(n));
    forall i | 0 <= i < n
      ensures i in order
    {
      assert i in listed;
      var k :| 0 <= k < n && order[k] == i;
      assert order[k] in order;
    }
  }

  /** The admin panel: refused without the admin cookie, otherwise one line
      per link, in the order the database returns them, showing its slug,
      target and both counters. Every link is listed, and no link twice. */
  function AdminPanel(jar: Cookies, t: Table, order: seq<int>): (r: Response)
    requires IsListingOrder(order, |t|)
    ensures CheckAdminCookie(jar).Some? ==> r == Forbidden(AdminOnly)
    ensures CheckAdminCookie(jar).None? ==> r.Panel? && |r.rows| == |t|
    ensures CheckAdminCookie(jar).None? ==>
      forall k :: 0 <= k < |t| ==> 0 <= order[k] < |t| && r.rows[k] == RowOf(t[order[k]])
    ensures CheckAdminCookie(jar).None? ==>
      forall i :: 0 <= i < |t| ==> RowOf(t[i]) in r.rows
    ensures CheckAdminCookie(jar).None? && UniqueSlugs(t) ==>
      forall k1, k2 :: 0 <= k1 < k2 < |t| ==> r.rows[k1].slug != r.rows[k2].slug
  {
    match CheckAdminCookie(jar)
    case Some(denial) => denial
    case None =>
      var rows := seq(|t|, k requires 0 <= k < |t| => RowOf(t[order[k]]));
      ListingOrderCovers(order, |t|);
      assert forall i :: 0 <= i < |t| ==> RowOf(t[i]) in rows by {
        forall i | 0 <= i < |t|
          ensures RowOf(t[i]) in rows
        {
          assert i in order;
          var k :| 0 <= k < |t| && order[k] == i;
          assert rows[k] == RowOf(t[i]);
        }
      }
      Panel(rows)
  }

  /** The candidate slug of draw `k`. */
  function Candidate(draws: seq<seq<int>>, k: nat): (s: string)
    requires AreDraws(draws) && k < |draws|
    ensures IsSlug(s, DefaultLength)
  {
    GenerateSlug(DefaultLength, draws[k])
  }

  /** Each element is one call of `generate_slug()` with the default length. */
  predicate AreDraws(draws: seq<seq<int>>) {
    forall k :: 0 <= k < |draws| ==> IsDraw(draws[k], DefaultLength)
  }

  /** Some draw at or after `from` yields a slug not yet in use. */
  predicate HasFreeDrawFrom(t: Table, draws: seq<seq<int>>, from: nat)
    requires AreDraws(draws)
  {
    exists k :: from <= k < |draws| && Candidate(draws, k) !in Slugs(t)
  }

  /** The redraw loop, as a function: the first draw at or after `from` whose
      slug no row uses. */
  function FirstFree(t: Table, draws: seq<seq<int>>, from: nat): (k: nat)
    requires AreDraws(draws) && from <= |draws| && HasFreeDrawFrom(t, draws, from)
    ensures from <= k < |draws|
    ensures Candidate(draws, k) !in Slugs(t)
    ensures forall j :: from <= j < k ==> Candidate(draws, j) in Slugs(t)
    decreases |draws| - from
  {
    if Candidate(draws, from) !in Slugs(t) then from
    else FirstFree(t, draws, from + 1)
  }

  /** The first free draw is the only draw that is free with every earlier
      draw taken, so the allocation loop and `FirstFree` pick the same one. */
  lemma FirstFreeUnique(t: Table, draws: seq<seq<int>>, k: nat)
    requires AreDraws(draws) && HasFreeDrawFrom(t, draws, 0) && k < |draws|
    requires Candidate(draws, k) !in Slugs(t)
    requires forall j :: 0 <= j < k ==> Candidate(draws, j) in Slugs(t)
    ensures k == FirstFree(t, draws, 0)
  {
  }

  /** The slug allocation loop of link creation: draw a slug, and draw again
      while a row already has it. The result is the first unused candidate. */
  method AllocateSlug(t: Table, draws: seq<seq<int>>) returns (slug: string, k: nat)
    requires AreDraws(draws) && HasFreeDrawFrom(t, draws, 0)
    ensures k < |draws| && slug == Candidate(draws, k)
    ensures IsSlug(slug, DefaultLength)
    ensures slug !in Slugs(t)
    ensures forall j :: 0 <= j < k ==> Candidate(draws, j) in Slugs(t)
  {
    k := 0;
    slug := Candidate(draws, 0);
    while Find(t, slug).Some?
      invariant k < |draws| && slug == Candidate(draws, k)
      invariant forall j :: 0 <= j < k ==> Candidate(draws, j) in Slugs(t)
      invariant HasFreeDrawFrom(t, draws, k)
      decreases |draws| - k
    {
      k := k + 1;
      slug := Candidate(draws, k);
    }
  }

  /** The short link handed out for a slug. */
  function ShortUrl(slug: string): string {
    BaseUrl + "/go/" + slug
  }

  /** The admin's "create link" request; a missing field arrives as "". An
      empty target never reaches the handler (422). Without the admin cookie
      the request is refused. In both cases the table is left alone.
      Otherwise the first unused candidate slug gets a new row with the given
      target and both counters at 0, every existing row is kept as it was,
      and the short link for the slug is returned. The target is not checked
      beyond being non-empty. */
  function AdminCreate(jar: Cookies, t: Table, target: string, draws: seq<seq<int>>, now: int): (s: Step)
    requires AreDraws(draws)
    requires target != "" && CheckAdminCookie(jar).None? ==> HasFreeDrawFrom(t, draws, 0)
    ensures target == "" ==> s.response == Unprocessable && s.table == t
    ensures target != "" && CheckAdminCookie(jar).Some? ==> s.response == Forbidden(AdminOnly) && s.table == t
    ensures target != "" && CheckAdminCookie(jar).None? ==>
      && |s.table| == |t| + 1
      && s.table[..|t|] == t
      && var slug := s.table[|t|].slug;
      && slug == Candidate(draws, FirstFree(t, draws, 0))
      && slug !in Slugs(t)
      && IsSlug(slug, DefaultLength)
      && Slugs(s.table) == Slugs(t) + {slug}
      && s.table[|t|].target == target && s.table[|t|].createdAt == now
      && s.table[|t|].clicks == 0 && s.table[|t|].completed == 0
      && s.response == LinkCreated(BaseUrl + "/go/" + slug)
    ensures Grows(t, s.table)
    ensures Valid(t) ==> Valid(s.table)
  {
    if target == "" then Step(Unprocessable, t)
    else match CheckAdminCookie(jar)
    case Some(denial) => Step(denial, t)
    case None =>
      var slug := Candidate(draws, FirstFree(t, draws, 0));
      Step(LinkCreated(ShortUrl(slug)), Insert(t, slug, target, now))
  }

  /** `str.rstrip(c)`: `s` without its trailing run of `c`. */
  function RStrip(s: string, c: char): (r: string)
    ensures |r| <= |s| && r == s[..|r|]
    ensures |r| == 0 || r[|r| - 1] != c
    ensures forall i :: |r| <= i < |s| ==> s[i] == c
    decreases |s|
  {
    if |s| > 0 && s[|s| - 1] == c then RStrip(s[..|s| - 1], c) else s
  }

  /** The visit page `/go/{slug}`. An unknown slug gets 404 and the table is
      unchanged (no row is created); a known slug gets the interstitial page,
      whose continue link points at `/redirect/{slug}` on the request's own
      base address, and that link's click counter goes up by one. */
  function AdPage(t: Table, slug: string, requestBaseUrl: string): (s: Step)
    ensures slug !in Slugs(t) ==> s.response == InvalidLink && s.response.Status() == 404 && s.table == t
    ensures slug in Slugs(t) ==> BumpedRow(t, s.table, Find(t, slug).value, 1, 0)
    ensures slug in Slugs(t) ==>
      s.response == Interstitial(RStrip(requestBaseUrl, '/') + "/redirect/" + slug) && s.response.Status() == 200
    ensures Slugs(s.table) == Slugs(t)
    ensures Grows(t, s.table)
    ensures Valid(t) ==> Valid(s.table)
  {
    match Find(t, slug)
    case None => Step(InvalidLink, t)
    case Some(i) =>
      var base := RStrip(requestBaseUrl, '/');
      Step(Interstitial(base + "/redirect/" + slug), IncrementClicks(t, i))
  }

  /** The final redirect `/redirect/{slug}`. An unknown slug is sent to `/`
      with the table unchanged; a known slug has its completion counter raised
      by one and is sent to its stored target. */
  function FinalRedirect(t: Table, slug: string): (s: Step)
    ensures slug !in Slugs(t) ==> s.response == Redirect("/", TemporaryRedirect, None) && s.table == t
    ensures slug in Slugs(t) ==> BumpedRow(t, s.table, Find(t, slug).value, 0, 1)
    ensures slug in Slugs(t) ==>
      s.response == Redirect(t[Find(t, slug).value].target, TemporaryRedirect, None)
    ensures Slugs(s.table) == Slugs(t)
    ensures Grows(t, s.table)
    ensures Valid(t) ==> Valid(s.table)
  {
    match Find(t, slug)
    case None => Step(Redirect("/", TemporaryRedirect, None), t)
    case Some(i) => Step(Redirect(t[i].target, TemporaryRedirect, None), IncrementCompleted(t, i))
  }
}
