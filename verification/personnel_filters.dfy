/** The discipline list and the searched, filtered, sorted personnel view
    (src/features/personnel/hooks/usePersonnelFilters.ts). */
module PersonnelFilters {
  import opened Records
  import Seqs
  import Text
  import PersonnelHooks
  import PersonnelHelpers

  predicate HasDiscipline(ps: seq<Personnel>, d: string)
  {
    exists i :: 0 <= i < |ps| && ps[i].discipline == d
  }

  /** The disciplines of `ps` in order of first appearance: the iteration
      order of `new Set(personnel.map(p => p.discipline))`. */
  function FirstAppearance(ps: seq<Personnel>): (ds: seq<string>)
    ensures forall d :: d in ds <==> HasDiscipline(ps, d)
    ensures forall i, j :: 0 <= i < j < |ds| ==> ds[i] != ds[j]
  {
    if ps == [] then []
    else
      var n := |ps| - 1;
      var prev := FirstAppearance(ps[..n]);
      assert forall d :: HasDiscipline(ps, d) <==> HasDiscipline(ps[..n], d) || ps[n].discipline == d by {
        forall d | HasDiscipline(ps, d) ensures HasDiscipline(ps[..n], d) || ps[n].discipline == d {
          var i :| 0 <= i < |ps| && ps[i].discipline == d;
          if i < n { assert ps[..n][i] == ps[i]; }
        }
        forall d | HasDiscipline(ps[..n], d) ensures HasDiscipline(ps, d) {
          var i :| 0 <= i < n && ps[..n][i].discipline == d;
          assert ps[i].discipline == d;
        }
      }
      if ps[n].discipline in prev then prev else prev + [ps[n].discipline]
  }

  lemma StringOrder()
    ensures Seqs.Total(Text.LexLe) && Seqs.Transitive(Text.LexLe)
  {
    forall a: string, b: string ensures Text.LexLe(a, b) || Text.LexLe(b, a) {
      Text.LexTotal(a, b);
    }
    forall a: string, b: string, c: string | Text.LexLe(a, b) && Text.LexLe(b, c)
      ensures Text.LexLe(a, c)
    {
      Text.LexTransitive(a, b, c);
    }
  }

  /** `disciplines`: `'All'`, then the distinct disciplines sorted by the
      default `sort()`. */
  function Disciplines(ps: seq<Personnel>): (r: seq<string>)
    ensures |r| >= 1 && r[0] == "All"
    ensures multiset(r[1..]) == multiset(FirstAppearance(ps))
    ensures Seqs.SortedBy(r[1..], Text.LexLe)
  {
    StringOrder();
    var sorted := Seqs.SortBy(FirstAppearance(ps), Text.LexLe);
    assert (["All"] + sorted)[1..] == sorted;
    ["All"] + sorted
  }

  function Same(s: string): string
  {
    s
  }

  /** After `'All'` each discipline present appears exactly once, nothing
      else appears, and the list is strictly increasing. */
  lemma DisciplineList(ps: seq<Personnel>, d: string)
    ensures var r := Disciplines(ps);
      (d in r[1..] <==> HasDiscipline(ps, d)) &&
      (forall i :: 1 < i < |r| ==> Text.LexLe(r[i - 1], r[i]) && r[i - 1] != r[i])
  {
    var r := Disciplines(ps);
    var fa := FirstAppearance(ps);
    assert d in r[1..] <==> d in multiset(r[1..]);
    assert d in fa <==> d in multiset(fa);
    assert Seqs.DistinctBy(fa, Same) by {
      forall i, j | 0 <= i < j < |fa| ensures Same(fa[i]) != Same(fa[j]) {
      }
    }
    Seqs.PermutationKeepsDistinct(fa, r[1..], Same);
    forall i | 1 < i < |r| ensures Text.LexLe(r[i - 1], r[i]) && r[i - 1] != r[i] {
      assert r[i - 1] == r[1..][i - 2] && r[i] == r[1..][i - 1];
      assert Same(r[1..][i - 2]) != Same(r[1..][i - 1]);
    }
  }

  /** The search part of the filter, given the role label to search in: the
      name, discipline and role are compared lower-cased, the phone as
      typed, and an absent phone never matches. */
  predicate SearchMatches(p: Personnel, search: string, role: string)
  {
    var lower := Text.Lower(search);
    Text.Contains(Text.Lower(p.name), lower) ||
    (p.phone.Some? && Text.Contains(p.phone.value, search)) ||
    Text.Contains(Text.Lower(p.discipline), lower) ||
    Text.Contains(Text.Lower(role), lower)
  }

  predicate DisciplineOk(p: Personnel, disciplineFilter: string)
  {
    disciplineFilter == "All" || p.discipline == disciplineFilter
  }

  predicate HelmetOk(p: Personnel, helmetFilter: string)
  {
    helmetFilter == "All" || HelmetName(p.helmetColor) == helmetFilter
  }

  predicate Matches(p: Personnel, search: string, disciplineFilter: string, helmetFilter: string)
  {
    SearchMatches(p, search, PersonnelHelpers.RoleName(p)) &&
    DisciplineOk(p, disciplineFilter) && HelmetOk(p, helmetFilter)
  }

  function MatchFn(search: string, disciplineFilter: string, helmetFilter: string): Personnel -> bool
  {
    (p: Personnel) => Matches(p, search, disciplineFilter, helmetFilter)
  }

  /** `filteredPersonnel`: the matching persons, each as often as listed,
      sorted by name. */
  function FilteredPersonnel(ps: seq<Personnel>, search: string, disciplineFilter: string, helmetFilter: string): (r: seq<Personnel>)
    ensures forall x ::
      multiset(r)[x] == if Matches(x, search, disciplineFilter, helmetFilter) then multiset(ps)[x] else 0
    ensures PersonnelHooks.SortedByName(r)
  {
    PersonnelHooks.SortByName(Seqs.Filter(ps, MatchFn(search, disciplineFilter, helmetFilter)))
  }

  /** A listed person passes both filters: a discipline filter other than
      `All` only lets exact disciplines through, and likewise for helmets. */
  lemma FilteredPassesFilters(ps: seq<Personnel>, search: string, disciplineFilter: string, helmetFilter: string, x: Personnel)
    requires x in FilteredPersonnel(ps, search, disciplineFilter, helmetFilter)
    ensures x in ps
    ensures disciplineFilter != "All" ==> x.discipline == disciplineFilter
    ensures helmetFilter != "All" ==> HelmetName(x.helmetColor) == helmetFilter
  {
    var r := FilteredPersonnel(ps, search, disciplineFilter, helmetFilter);
    assert x in multiset(r);
  }

  /** With an empty search and both filters at `All` everyone is listed. */
  lemma EmptySearchKeepsEveryone(ps: seq<Personnel>)
    ensures multiset(FilteredPersonnel(ps, "", "All", "All")) == multiset(ps)
  {
    forall p: Personnel ensures Matches(p, "", "All", "All") {
      Text.ContainsEmpty(Text.Lower(p.name));
    }
    var r := FilteredPersonnel(ps, "", "All", "All");
    assert forall x :: multiset(r)[x] == multiset(ps)[x];
  }

  /** A person without a phone is found only through name, discipline or
      role. */
  lemma NoPhoneNoPhoneMatch(p: Personnel, search: string, role: string)
    requires p.phone.None?
    ensures SearchMatches(p, search, role) <==>
      Text.Contains(Text.Lower(p.name), Text.Lower(search)) ||
      Text.Contains(Text.Lower(p.discipline), Text.Lower(search)) ||
      Text.Contains(Text.Lower(role), Text.Lower(search))
  {
  }

  /** The phone is searched as typed: an upper-case search does not find a
      lower-case phone text, while the name search ignores case. */
  lemma PhoneSearchIsCaseSensitive()
    ensures !SearchMatches(Personnel(1, "", Some("x"), None, "", White), "X", "")
    ensures SearchMatches(Personnel(1, "x", None, None, "", White), "X", "")
  {
    var lower := Text.Lower("X");
    assert lower == "x";
    assert Text.Lower("x") == "x";
    assert Text.MatchesAt("x", "x", 0);
    assert !Text.Contains("x", "X") by {
      forall i | 0 <= i <= 0 ensures !Text.MatchesAt("x", "X", i) {
        assert "x"[0..1] == "x";
      }
    }
  }

  lemma LowerConcat(a: string, b: string)
    ensures Text.Lower(a + b) == Text.Lower(a) + Text.Lower(b)
  {
  }

  /** Searching "foreman" in any case finds every blue-helmet person. */
  lemma ForemanSearch(p: Personnel, search: string)
    requires p.helmetColor == Blue && Text.Lower(search) == "foreman"
    ensures SearchMatches(p, search, PersonnelHelpers.RoleName(p))
  {
    var role := PersonnelHelpers.RoleName(p);
    LowerConcat(p.discipline, " Foreman");
    var lr := Text.Lower(role);
    assert Text.Lower(" Foreman") == " foreman";
    var k := |p.discipline| + 1;
    assert lr[k..k + 7] == "foreman";
    assert Text.MatchesAt(lr, "foreman", k);
  }
}
