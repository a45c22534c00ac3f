/**
 * The two selection lists and the row lookup: the colleges on offer, the
 * programs of the chosen college (each `sorted(... .dropna().unique())`),
 * and the first row matching both choices (`.iloc[0]`).
 */
module Selection {
  import opened Wrappers
  import opened Text
  import opened Catalog

  /** Ascending in Python's string order with no value twice. */
  predicate StrictlyAscending(s: seq<string>) {
    forall i, j :: 0 <= i < j < |s| ==> Below(s[i], s[j])
  }

  /** A head below everything after it extends an ascending list. */
  lemma AscendingCons(h: string, rest: seq<string>)
    requires StrictlyAscending(rest) && forall y :: y in rest ==> Below(h, y)
    ensures StrictlyAscending([h] + rest)
  {
    forall i, j | 0 <= i < j < |[h] + rest|
      ensures Below(([h] + rest)[i], ([h] + rest)[j])
    {
      if i > 0 {
        assert ([h] + rest)[i] == rest[i - 1] && ([h] + rest)[j] == rest[j - 1];
      } else {
        assert rest[j - 1] in rest;
      }
    }
  }

  /** Adds `x` to an ascending list, in its place, unless it is already there. */
  function Insert(x: string, s: seq<string>): (r: seq<string>)
    requires StrictlyAscending(s)
    ensures StrictlyAscending(r)
    ensures forall y :: y in r <==> y == x || y in s
  {
    if s == [] then [x]
    else if x == s[0] then s
    else if Below(x, s[0]) then
      assert forall y :: y in s ==> Below(x, y) by {
        forall y | y in s ensures Below(x, y) {
          var k :| 0 <= k < |s| && s[k] == y;
          if k > 0 {
            BelowTransitive(x, s[0], y);
          }
        }
      }
      AscendingCons(x, s);
      [x] + s
    else
      BelowTotal(x, s[0]);
      var rest := Insert(x, s[1..]);
      assert forall y :: y in rest ==> Below(s[0], y) by {
        forall y | y in rest ensures Below(s[0], y) {
          if y != x {
            var k :| 0 <= k < |s[1..]| && s[1..][k] == y;
            assert s[k + 1] == y;
          }
        }
      }
      AscendingCons(s[0], rest);
      assert s == [s[0]] + s[1..];
      [s[0]] + rest
  }

  /** `sorted(set(xs))`: the distinct values of `xs`, ascending. */
  function SortedUnique(xs: seq<string>): (r: seq<string>)
    ensures StrictlyAscending(r)
    ensures forall y :: y in r <==> y in xs
  {
    if xs == [] then []
    else
      assert xs == xs[..|xs| - 1] + [xs[|xs| - 1]];
      Insert(xs[|xs| - 1], SortedUnique(xs[..|xs| - 1]))
  }

  /** Lists with the same values are both empty or both not. */
  lemma SameEmptiness(a: seq<string>, b: seq<string>)
    requires forall y :: y in a <==> y in b
    ensures a == [] <==> b == []
  {
    if a != [] {
      assert a[0] in a;
    }
    if b != [] {
      assert b[0] in b;
    }
  }

  /** Two ascending lists with the same values are the same list. */
  lemma {:induction false} AscendingUnique(a: seq<string>, b: seq<string>)
    requires StrictlyAscending(a) && StrictlyAscending(b)
    requires forall y :: y in a <==> y in b
    ensures a == b
  {
    SameEmptiness(a, b);
    if a != [] {
      assert a[0] == b[0] by {
        assert a[0] in a && b[0] in b;
        var k :| 0 <= k < |b| && b[k] == a[0];
        var m :| 0 <= m < |a| && a[m] == b[0];
        if k > 0 && m > 0 {
          BelowTransitive(a[0], b[0], a[0]);
          BelowIrreflexive(a[0]);
        } else if k > 0 {
          BelowIrreflexive(a[0]);
        } else if m > 0 {
          BelowIrreflexive(b[0]);
        }
      }
      forall y ensures y in a[1..] <==> y in b[1..] {
        if y in a[1..] {
          var i :| 0 <= i < |a[1..]| && a[1..][i] == y;
          assert Below(a[0], a[i + 1]);
          BelowIrreflexive(a[0]);
          assert y in b && y != b[0];
          assert b == [b[0]] + b[1..];
        }
        if y in b[1..] {
          var i :| 0 <= i < |b[1..]| && b[1..][i] == y;
          assert Below(b[0], b[i + 1]);
          BelowIrreflexive(b[0]);
          assert y in a && y != a[0];
          assert a == [a[0]] + a[1..];
        }
      }
      AscendingUnique(a[1..], b[1..]);
      assert a == [a[0]] + a[1..] && b == [b[0]] + b[1..];
    }
  }

  /** Some row names `college`. */
  predicate HasCollege(cat: seq<Record>, college: string) {
    exists i :: 0 <= i < |cat| && cat[i].college == Some(college)
  }

  /** Some row pairs `college` with `program`. */
  predicate Offers(cat: seq<Record>, college: string, program: string) {
    exists i :: 0 <= i < |cat| && Matches(cat[i], college, program)
  }

  /** The row is for this college and this program. */
  predicate Matches(rec: Record, college: string, program: string) {
    rec.college == Some(college) && rec.program == Some(program)
  }

  /** `df['College'].dropna()`: the College values present, in table order. */
  function PresentColleges(cat: seq<Record>): (r: seq<string>)
    ensures forall c :: c in r <==> HasCollege(cat, c)
  {
    if cat == [] then []
    else
      var init := cat[..|cat| - 1];
      var last := cat[|cat| - 1];
      assert forall i :: 0 <= i < |init| ==> init[i] == cat[i];
      var r := PresentColleges(init);
      match last.college
      case None => r
      case Some(c) => r + [c]
  }

  /** `df[df['College'] == college]['Program'].dropna()`: that college's Program values, in table order. */
  function PresentPrograms(cat: seq<Record>, college: string): (r: seq<string>)
    ensures forall p :: p in r <==> Offers(cat, college, p)
  {
    if cat == [] then []
    else
      var init := cat[..|cat| - 1];
      var last := cat[|cat| - 1];
      assert forall i :: 0 <= i < |init| ==> init[i] == cat[i];
      var r := PresentPrograms(init, college);
      if last.college == Some(college) && last.program.Some? then r + [last.program.value] else r
  }

  /** The college list: every College value present, once each, ascending. */
  function Colleges(cat: seq<Record>): (r: seq<string>)
    ensures StrictlyAscending(r)
    ensures forall c :: c in r <==> HasCollege(cat, c)
  {
    SortedUnique(PresentColleges(cat))
  }

  /** The program list of `college`: every Program value on one of its rows, once each, ascending. */
  function Programs(cat: seq<Record>, college: string): (r: seq<string>)
    ensures StrictlyAscending(r)
    ensures forall p :: p in r <==> Offers(cat, college, p)
  {
    SortedUnique(PresentPrograms(cat, college))
  }

  /** The index of the first row for `college` and `program`, as `.iloc[0]` takes it; `None` when no row matches. */
  function Lookup(cat: seq<Record>, college: string, program: string): (r: Option<nat>)
    ensures r.Some? ==> r.value < |cat| && Matches(cat[r.value], college, program)
                        && forall j :: 0 <= j < r.value ==> !Matches(cat[j], college, program)
    ensures r.None? <==> !Offers(cat, college, program)
  {
    if cat == [] then None
    else if Matches(cat[0], college, program) then Some(0)
    else
      match Lookup(cat[1..], college, program)
      case None =>
        assert forall i :: 1 <= i < |cat| ==> cat[i] == cat[1..][i - 1];
        None
      case Some(k) => Some(k + 1)
  }

  /** Any college from the first list with any program from the second list finds a row. */
  lemma OfferedChoiceResolves(cat: seq<Record>, college: string, program: string)
    requires college in Colleges(cat) && program in Programs(cat, college)
    ensures Lookup(cat, college, program).Some?
    ensures cat[Lookup(cat, college, program).value].college == Some(college)
  {
  }

  /** The college list is the only ascending list of exactly the colleges present. */
  lemma CollegesDetermined(cat: seq<Record>, s: seq<string>)
    requires StrictlyAscending(s) && forall c :: c in s <==> HasCollege(cat, c)
    ensures Colleges(cat) == s
  {
    AscendingUnique(Colleges(cat), s);
  }

  /** The program list is the only ascending list of exactly the programs offered by the college. */
  lemma ProgramsDetermined(cat: seq<Record>, college: string, s: seq<string>)
    requires StrictlyAscending(s) && forall p :: p in s <==> Offers(cat, college, p)
    ensures Programs(cat, college) == s
  {
    AscendingUnique(Programs(cat, college), s);
  }

  /** On a loaded catalog every name offered in either list is already stripped. */
  lemma OfferedNamesTrimmed(cat: seq<Record>, college: string)
    requires Normalized(cat)
    ensures forall c :: c in Colleges(cat) ==> IsTrimmed(c)
    ensures forall p :: p in Programs(cat, college) ==> IsTrimmed(p)
  {
  }
}
