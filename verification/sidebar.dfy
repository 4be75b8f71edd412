/**
 The course sidebar. It keeps the ids of the expanded modules in a list used
 as a set: toggling a module drops every occurrence of its id when present
 and appends it otherwise. A module's lessons are listed only while it is
 expanded.
 */
module Sidebar {
  import opened Catalog

  /** No id occurs twice. */
  predicate NoDuplicates(s: seq<string>) {
    forall i, j :: 0 <= i < j < |s| ==> s[i] != s[j]
  }

  /** `s.filter(y => y !== x)`: every occurrence of `x` removed, the other
      entries kept in order. */
  function RemoveAll(s: seq<string>, x: string): (r: seq<string>)
    ensures forall y :: y in r <==> y in s && y != x
    ensures |r| <= |s|
    ensures x in s ==> |r| < |s|
    ensures x !in s ==> r == s
    ensures NoDuplicates(s) ==> NoDuplicates(r)
    decreases |s|
  {
    if s == [] then []
    else if s[0] == x then RemoveAll(s[1..], x)
    else
      var rest := RemoveAll(s[1..], x);
      assert NoDuplicates(s) ==> NoDuplicates([s[0]] + rest) by {
        if NoDuplicates(s) {
          NoDuplicatesCons(s[0], rest);
        }
      }
      [s[0]] + rest
  }

  /** Putting an absent id in front keeps a list free of duplicates. */
  lemma NoDuplicatesCons(x: string, s: seq<string>)
    requires x !in s && NoDuplicates(s)
    ensures NoDuplicates([x] + s)
  {
    var r := [x] + s;
    forall i, j | 0 <= i < j < |r|
      ensures r[i] != r[j]
    {
      if i == 0 {
        assert r[j] == s[j - 1];
      } else {
        assert r[i] == s[i - 1] && r[j] == s[j - 1];
      }
    }
  }

  /** Removing from a concatenation removes from each part. */
  lemma {:induction false} RemoveAllAppend(a: seq<string>, b: seq<string>, x: string)
    ensures RemoveAll(a + b, x) == RemoveAll(a, x) + RemoveAll(b, x)
    decreases |a|
  {
    if a == [] {
      assert a + b == b;
    } else {
      assert (a + b)[0] == a[0];
      assert (a + b)[1..] == a[1..] + b;
      RemoveAllAppend(a[1..], b, x);
    }
  }

  /** The click handler of a module header. Membership of `moduleId` flips,
      membership of every other id is untouched, and no duplicate appears. */
  function Toggle(expanded: seq<string>, moduleId: string): (r: seq<string>)
    ensures moduleId in r <==> moduleId !in expanded
    ensures forall y :: y != moduleId ==> (y in r <==> y in expanded)
    ensures NoDuplicates(expanded) ==> NoDuplicates(r)
  {
    if moduleId in expanded then RemoveAll(expanded, moduleId) else expanded + [moduleId]
  }

  /** Toggling the same module twice restores every membership. A module
      that was collapsed comes back to exactly the old list; one that was
      expanded comes back at the end of the list. */
  lemma ToggleTwice(expanded: seq<string>, moduleId: string)
    ensures forall y :: y in Toggle(Toggle(expanded, moduleId), moduleId) <==> y in expanded
    ensures moduleId !in expanded ==> Toggle(Toggle(expanded, moduleId), moduleId) == expanded
    ensures moduleId in expanded ==>
              Toggle(Toggle(expanded, moduleId), moduleId) == RemoveAll(expanded, moduleId) + [moduleId]
  {
    if moduleId !in expanded {
      RemoveAllAppend(expanded, [moduleId], moduleId);
      assert RemoveAll([moduleId], moduleId) == [];
    }
  }

  /** The list after a series of header clicks. */
  function ToggleAll(expanded: seq<string>, ids: seq<string>): (r: seq<string>)
    decreases |ids|
  {
    if ids == [] then expanded else ToggleAll(Toggle(expanded, ids[0]), ids[1..])
  }

  /** Whether `id` was clicked an odd number of times. */
  function ClickedOddly(ids: seq<string>, id: string): bool
    decreases |ids|
  {
    if ids == [] then false else (ids[0] == id) != ClickedOddly(ids[1..], id)
  }

  /** Expansion is a set of independent flags: after any series of clicks a
      module is expanded exactly when it started expanded and was clicked an
      even number of times, or started collapsed and was clicked an odd
      number of times. */
  lemma {:induction false} ToggleAllParity(expanded: seq<string>, ids: seq<string>, id: string)
    ensures id in ToggleAll(expanded, ids) <==> (id in expanded) != ClickedOddly(ids, id)
    decreases |ids|
  {
    if ids != [] {
      var next := Toggle(expanded, ids[0]);
      ToggleAllParity(next, ids[1..], id);
      assert (id in next) == ((id in expanded) != (ids[0] == id));
    }
  }

  /** Starting from the empty list the sidebar begins with, no sequence of
      clicks ever produces a duplicate id. */
  lemma {:induction false} ToggleAllNoDuplicates(expanded: seq<string>, ids: seq<string>)
    requires NoDuplicates(expanded)
    ensures NoDuplicates(ToggleAll(expanded, ids))
    decreases |ids|
  {
    if ids != [] {
      ToggleAllNoDuplicates(Toggle(expanded, ids[0]), ids[1..]);
    }
  }

  /** The lesson entries listed under one module. */
  function ListedLessons(m: CourseModule, expanded: seq<string>): (r: seq<Lesson>)
    ensures r == [] || r == m.lessons
    ensures m.lessons != [] ==> (r == m.lessons <==> m.id in expanded)
  {
    if m.id in expanded then m.lessons else []
  }

  /** Every lesson entry in the sidebar, module by module. */
  function ShownLessons(c: seq<CourseModule>, expanded: seq<string>): (r: seq<Lesson>)
    decreases |c|
  {
    if c == [] then [] else ListedLessons(c[0], expanded) + ShownLessons(c[1..], expanded)
  }

  /** A lesson has an entry in the sidebar exactly when some expanded module
      of the catalog holds it. */
  lemma {:induction false} ShownLessonsMembers(c: seq<CourseModule>, expanded: seq<string>, l: Lesson)
    ensures l in ShownLessons(c, expanded) <==> exists m :: m in c && m.id in expanded && l in m.lessons
    decreases |c|
  {
    if c != [] {
      ShownLessonsMembers(c[1..], expanded, l);
      assert forall m :: m in c <==> m == c[0] || m in c[1..];
    }
  }

  /** Every listed lesson belongs to the catalog. */
  lemma {:induction false} ShownLessonsInCatalog(c: seq<CourseModule>, expanded: seq<string>, l: Lesson)
    requires l in ShownLessons(c, expanded)
    ensures l in AllLessons(c)
  {
    ShownLessonsMembers(c, expanded, l);
  }

  /** An entry is highlighted when its id is the current lesson id. */
  predicate Highlighted(currentLessonId: string, l: Lesson) {
    currentLessonId == l.id
  }

}
