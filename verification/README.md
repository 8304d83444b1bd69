# Link gateway lifecycle — a Dafny model

This project models the core of a small link-redirection gateway written in
Python with FastAPI and SQLAlchemy. An admin logs in with a shared password
and receives a cookie. With that cookie the admin can create "funnel" links
and view per-link statistics. A visitor who opens a short link `/go/{slug}`
sees an interstitial page and has the link's `clicks` counter raised. The
page's continue link `/redirect/{slug}` raises the `completed` counter and
forwards the visitor to the stored target.

The database is modelled as the sequence of rows of the `links` table in
insertion order (`LinkStore.Table`). Each request handler is a pure function
from the table and the request's inputs to a `Step`: the response and the
table after the request. Things the source draws from its environment are
parameters:

- the random picks of `random.choice` are draws of indices into the 36-character alphabet;
- the clock `int(time.time())` is the `now` argument;
- the request cookies are a map;
- the request's base URL is a string;
- the `ADMIN_PASSWORD` environment variable is an optional string;
- the order in which an unordered `SELECT` returns the rows is a sequence of row positions, each row once;
- a missing form field is the empty string, because the framework rejects a missing and an empty required field alike (422).

Modules:

- `Wrappers`: the `Option` type, for lookups that may find nothing.
- `SlugGenerator`: the alphabet A–Z then 0–9, and `generate_slug`.
- `LinkStore`: the `Link` row and the table invariant `Valid`. `Valid` means
  slugs are unique and ids are auto-incremented. The module also holds the
  slug query, the insert and the two counter increments. `Grows` is the
  "only moves forward" relation between an earlier and a later table.
- `Gateway`: the admin cookie gate, login, the admin panel, link creation
  with its redraw loop, the visit page and the final redirect.
- `Lifecycle`: dispatching any sequence of requests. It proves the invariants
  across whole runs, repeated visits and completions, and the end-to-end
  scenario.

Facts about the code that the model keeps as they are:

- The target URL of a new link is not validated beyond being non-empty.
- The redraw loop checks for a free slug before inserting. The unique index on `slug` rejects a duplicate that slips through a race between two creations; that request then fails with an error. The model applies requests one at a time, so this path does not arise.
- The admin credential is the literal cookie value `"true"`.
- The redraw loop has no retry cap.
- `completed <= clicks` is not enforced. `Lifecycle.CompletionCanOutrunVisits`
  shows a completion that puts `completed` ahead of `clicks`.
- If `ADMIN_PASSWORD` is set to the empty string, nobody can log in.
  `Gateway.EmptyAdminPasswordLocksOut` shows this.

## Model

| member | source | states |
|---|---|---|
| `SlugGenerator.GenerateSlug` | main.py:53-55 | a slug of the requested length whose every character is an upper-case letter or a digit; the draw can be read back from the slug, so distinct draws give distinct slugs |
| `SlugGenerator.GenerateSlugOnto` | main.py:53-55 | every string of the given length over A–Z and 0–9 is a possible result of slug generation |
| `SlugGenerator.GenerateSlugInjective` | main.py:53-55 | two draws that give the same slug are the same draw |
| `LinkStore.Find` | main.py:223 | the slug query finds nothing exactly when no row has the slug, and otherwise a row carrying that slug |
| `LinkStore.FindLocatesRow` | main.py:27 | with the unique index on `slug`, the slug query returns exactly the row that has the slug |
| `LinkStore.Insert` | main.py:158-166 | a new link row has the given slug, target and creation time, both counters at 0 and the next id; all earlier rows are kept, the set of slugs grows by exactly the new one, and the table invariant is preserved |
| `LinkStore.IncrementClicks` | main.py:227-228 | raises one row's click count by 1; its identity, its completion count and every other row are untouched |
| `LinkStore.IncrementCompleted` | main.py:409-410 | raises one row's completion count by 1; its identity, its click count and every other row are untouched |
| `Gateway.AdminPassword` | main.py:11 | the admin password is the environment's value when it is set, `changeme` otherwise |
| `Gateway.CheckAdminCookie` | main.py:48-51 | a request passes the gate exactly when its `admin_session` cookie is present with value `"true"`; otherwise it gets 403 "Forbidden: Admin only" |
| `Gateway.AdminDoLogin` | main.py:96-103 | an empty or missing password gets 422; otherwise the answer is 403 exactly when the password is wrong, and then it carries no cookie; the right non-empty password gives a 302 to `/admin/panel` setting `admin_session=true` for 86400 seconds, not http-only |
| `Gateway.LoginOpensGate` | main.py:101-102 | with a non-empty admin password, a client holding the cookie handed out by a successful login passes the admin gate, whatever cookies it had before |
| `Gateway.FailedLoginGrantsNothing` | main.py:97-99 | a refused login, with a wrong or an empty password, leaves the client's cookies unchanged, and so its standing at the gate |
| `Gateway.EmptyAdminPasswordLocksOut` | main.py:11 | when `ADMIN_PASSWORD` is set to the empty string, no login succeeds and no cookie is handed out |
| `Gateway.GateRefusesOtherValues` | main.py:49-51 | any admin-cookie value other than `"true"`, or no admin cookie, is refused |
| `Gateway.ListingOrderCovers` | main.py:109 | an order that names a different row at each of the `n` positions names every row (pigeonhole) |
| `Gateway.AdminPanel` | main.py:106-112 | without the admin cookie the panel is 403; with it, it has one line per link, in the order the database returns them, each showing a link's slug, target, clicks and completions; every link is listed, and with unique slugs no link is listed twice |
| `Gateway.FirstFree` | main.py:154-156 | the chosen draw's slug is used by no row, and every earlier draw's slug was already taken |
| `Gateway.FirstFreeUnique` | main.py:154-156 | exactly one draw is unused with every earlier draw taken, so the redraw loop and its functional description choose the same slug |
| `Gateway.AllocateSlug` | main.py:154-156 | the redraw loop stops at the first draw whose slug no row has; that slug is well formed and unused |
| `Gateway.AdminCreate` | main.py:150-168 | an empty or missing target gets 422, and a request without the admin cookie gets 403; both leave the table unchanged. Otherwise there is exactly one new row. Its slug is the first draw's slug that no row uses. It has the given target and both counters at 0. All existing rows are unchanged, and the response is `BASE_URL + "/go/" + slug` |
| `Gateway.RStrip` | main.py:230 | strips the trailing run of one character: the result is a prefix, does not end in the character, and only that character was removed |
| `Gateway.AdPage` | main.py:221-230 | an unknown slug gets 404 and leaves the table unchanged, so no row is created; a known slug raises only that link's clicks by 1 and gets the page whose continue link is `{base}/redirect/{slug}` |
| `Gateway.FinalRedirect` | main.py:403-412 | an unknown slug is redirected to `/` with the table unchanged; a known slug raises only that link's completions by 1 and gets a 307 redirect built from its stored target |
| `Lifecycle.Handle` | main.py:24-31 | every handler preserves slug uniqueness and sequential ids and only moves the table forward; login and the panel do not change the table, and only creation adds slugs |
| `Lifecycle.RunPreservesInvariants` | main.py:24-31 | across any sequence of requests no link is deleted, no slug, target, id or creation time changes, no counter decreases, and slugs stay unique |
| `Lifecycle.RepeatedVisitsCount` | main.py:227 | k visits to a link raise its clicks by exactly k and change nothing else |
| `Lifecycle.RepeatedCompletionsCount` | main.py:409 | k completions of a link raise its completions by exactly k and change nothing else |
| `Lifecycle.EndToEnd` | main.py:150-168 | after a correct login, creating a link with a non-empty target returns the short URL of the first free drawn slug, with counters 0/0; one visit and one completion leave it at 1/1, send the visitor to the target, and leave earlier links untouched |
| `Lifecycle.CompletionCanOutrunVisits` | main.py:405-410 | the completion handler does not check the click count, so completions can exceed clicks |

## Left out

- HTML, CSS and JavaScript markup: every page is reduced to the data it shows. This includes the client-side 20-second countdown. The interstitial page is reduced to its continue link.
- Engine and session setup, `get_db`, commit and close: the table is a value, and each request is applied whole.
- HTTP routing: handlers are plain functions. The second `app = FastAPI()` leaves the admin routes on an app object that is no longer served. Which routes are live is not modelled.
- `/health`, `/`, the login form page and the unused request log: they have no state and no invariants.
- Form parsing: a missing or empty `password` or `target` field gets 422 from the framework before the handler runs. The model represents both as the empty string. It gives no response body for this case.
- Concurrency: requests are applied one at a time. Two creations that draw the same free slug at once, where the unique index makes the second fail with an error, and the read-modify-write races on counters are not modelled.
- Randomness and the clock: these are parameters. The redraw loop is unbounded in the code. The model requires that some draw in the supplied sequence is free, which is exactly the condition under which the code's loop ends.
- Cookie expiry: the 86400-second `max_age` is recorded in the `Set-Cookie` value, but a client's jar never expires entries. The framework's `set_cookie` also adds `Path=/` and `SameSite=lax` by default; the model does not record these attributes, and `Gateway.ReceiveCookies` sends the stored cookie with every later request, which `Path=/` makes true for this site.
- Integer column width: `id`, `clicks`, `completed` and `created_at` are all `Column(Integer)`, and the model keeps them unbounded. The range of that column type depends on the database backend, which is not part of this model. On a 32-bit INTEGER, `int(time.time())` no longer fits after January 2038, and a counter at 2147483647 cannot be raised.
- `LinkStore.Insert`: requires the slug to be unused instead of modelling the unique-index violation. The only caller checks this first.
- `LinkStore.Find`: returns the first row in insertion order. `.first()` has no ORDER BY, but under the unique index at most one row matches.
- `Gateway.FinalRedirect` and `Lifecycle.EndToEnd`: `location` is the URL passed to `RedirectResponse`. The framework percent-quotes it into the `Location` header. A stored target with spaces or non-ASCII characters is therefore not sent back byte for byte.
- `LinkStore.Link`: ids are modelled as position + 1. This is auto-increment with no deletes and no gaps from rolled-back inserts.
