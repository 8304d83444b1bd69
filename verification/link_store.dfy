/** The `links` table: one row per short link, kept in insertion order. The
    database is modelled as the sequence of its rows; `id` is the
    auto-incremented primary key and `slug` carries a unique index. */
module LinkStore {
  import opened Wrappers

  /** One row of the `links` table. `createdAt` is whole seconds since the epoch. */
  datatype Link = Link(id: nat, slug: string, target: string, clicks: nat, completed: nat, createdAt: int)

  type Table = seq<Link>

  /** The slugs in use. */
  function Slugs(t: Table): set<string> {
    set i | 0 <= i < |t| :: t[i].slug
  }

  /** The unique index on `slug`. */
  predicate UniqueSlugs(t: Table) {
    forall i, j :: 0 <= i < j < |t| ==> t[i].slug != t[j].slug
  }

  /** Primary keys handed out by auto-increment, with no row ever deleted. */
  predicate SequentialIds(t: Table) {
    forall i :: 0 <= i < |t| ==> t[i].id == i + 1
  }

  /** The invariant every reachable table satisfies. */
  predicate Valid(t: Table) {
    UniqueSlugs(t) && SequentialIds(t)
  }

  /** The fields of a row that no operation may change once it exists. */
  predicate SameIdentity(a: Link, b: Link) {
    a.id == b.id && a.slug == b.slug && a.target == b.target && a.createdAt == b.createdAt
  }

  /** `t'` is a possible later state of `t`: no row is removed, no row's
      identity changes, and neither counter of any row decreases. */
  predicate Grows(t: Table, t': Table) {
    && |t| <= |t'|
    && forall i :: 0 <= i < |t| ==>
         SameIdentity(t[i], t'[i]) && t[i].clicks <= t'[i].clicks && t[i].completed <= t'[i].completed
  }

  lemma GrowsTransitive(t0: Table, t1: Table, t2: Table)
    requires Grows(t0, t1) && Grows(t1, t2)
    ensures Grows(t0, t2)
  {
  }

  /** Row `i` of `t'` is row `i` of `t` with its counters raised by the given
      amounts, and every other row is untouched. */
  predicate BumpedRow(t: Table, t': Table, i: nat, dClicks: nat, dCompleted: nat) {
    && |t'| == |t|
    && i < |t|
    && SameIdentity(t[i], t'[i])
    && t'[i].clicks == t[i].clicks + dClicks
    && t'[i].completed == t[i].completed + dCompleted
    && forall j :: 0 <= j < |t| && j != i ==> t'[j] == t[j]
  }

  /** The first row at or after `from` whose slug is `slug`. */
  function FindFrom(t: Table, slug: string, from: nat): (r: Option<nat>)
    requires from <= |t|
    ensures r.Some? ==> from <= r.value < |t| && t[r.value].slug == slug
    ensures r.Some? ==> forall j :: from <= j < r.value ==> t[j].slug != slug
    ensures r.None? ==> forall j :: from <= j < |t| ==> t[j].slug != slug
    decreases |t| - from
  {
    if from == |t| then None
    else if t[from].slug == slug then Some(from)
    else FindFrom(t, slug, from + 1)
  }

  /** The query `filter(Link.slug == slug).first()`: the position of a row
      with that slug, or nothing when the slug is not in use. */
  function Find(t: Table, slug: string): (r: Option<nat>)
    ensures r.None? <==> slug !in Slugs(t)
    ensures r.Some? ==> r.value < |t| && t[r.value].slug == slug
  {
    var r := FindFrom(t, slug, 0);
    assert r.Some? ==> t[r.value].slug in Slugs(t);
    r
  }

  /** Under the unique index the query finds exactly the row carrying the slug. */
  lemma FindLocatesRow(t: Table, i: nat)
    requires UniqueSlugs(t) && i < |t|
    ensures Find(t, t[i].slug) == Some(i)
  {
  }

  /** Adding a row for a slug not yet in use, with both counters at 0. The
      result keeps every existing row and the table invariant. */
  function Insert(t: Table, slug: string, target: string, now: int): (t': Table)
    requires slug !in Slugs(t)
    ensures |t'| == |t| + 1 && t'[..|t|] == t
    ensures t'[|t|].slug == slug && t'[|t|].target == target && t'[|t|].createdAt == now
    ensures t'[|t|].clicks == 0 && t'[|t|].completed == 0
    ensures Slugs(t') == Slugs(t) + {slug}
    ensures Grows(t, t')
    ensures Valid(t) ==> Valid(t')
  {
    var row := Link(|t| + 1, slug, target, 0, 0, now);
    var t' := t + [row];
    assert forall i :: 0 <= i < |t| ==> t'[i] == t[i];
    assert t'[|t|] == row;
    assert Slugs(t') == Slugs(t) + {slug} by {
      forall s | s in Slugs(t')
        ensures s in Slugs(t) + {slug}
      {
        var i :| 0 <= i < |t'| && t'[i].slug == s;
        if i < |t| { assert t[i].slug == s; }
      }
      forall s | s in Slugs(t)
        ensures s in Slugs(t')
      {
        var i :| 0 <= i < |t| && t[i].slug == s;
        assert t'[i].slug == s;
      }
    }
    assert UniqueSlugs(t) ==> UniqueSlugs(t') by {
      if UniqueSlugs(t) {
        forall i, j | 0 <= i < j < |t'|
          ensures t'[i].slug != t'[j].slug
        {
          if j == |t| {
            assert t[i].slug in Slugs(t);
          }
        }
      }
    }
    t'
  }

  /** `link.clicks += 1` on row `i`. */
  function IncrementClicks(t: Table, i: nat): (t': Table)
    requires i < |t|
    ensures BumpedRow(t, t', i, 1, 0)
    ensures Grows(t, t')
    ensures Slugs(t') == Slugs(t)
    ensures Valid(t) ==> Valid(t')
  {
    var t' := t[i := t[i].(clicks := t[i].clicks + 1)];
    assert forall j :: 0 <= j < |t| ==> t'[j].slug == t[j].slug;
    assert Slugs(t') == Slugs(t) by {
      forall s | s in Slugs(t') ensures s in Slugs(t) {
        var j :| 0 <= j < |t'| && t'[j].slug == s;
        assert t[j].slug == s;
      }
      forall s | s in Slugs(t) ensures s in Slugs(t') {
        var j :| 0 <= j < |t| && t[j].slug == s;
        assert t'[j].slug == s;
      }
    }
    t'
  }

  /** `link.completed += 1` on row `i`. */
  function IncrementCompleted(t: Table, i: nat): (t': Table)
    requires i < |t|
    ensures BumpedRow(t, t', i, 0, 1)
    ensures Grows(t, t')
    ensures Slugs(t') == Slugs(t)
    ensures Valid(t) ==> Valid(t')
  {
    var t' := t[i := t[i].(completed := t[i].completed + 1)];
    assert forall j :: 0 <= j < |t| ==> t'[j].slug == t[j].slug;
    assert Slugs(t') == Slugs(t) by {
      forall s | s in Slugs(t') ensures s in Slugs(t) {
        var j :| 0 <= j < |t'| && t'[j].slug == s;
        assert t[j].slug == s;
      }
      forall s | s in Slugs(t) ensures s in Slugs(t') {
        var j :| 0 <= j < |t| && t[j].slug == s;
        assert t'[j].slug == s;
      }
    }
    t'
  }
}
