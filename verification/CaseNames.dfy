/**
 The dashboard lane's cases: their fixed order, what each is expected to do, and the
 names of the files that hold their windows.
 */
module CaseNames {
  import opened Support
  import opened CaseWindows

  const FIRST := "mixed"
  /** The cases after the pages, in order. */
  const REFUSALS: seq<string> := ["invalid", "invalid-cursor", "provider-refusal", "retired-new", "retired-continuation"]
  const OBSERVATION := "-observation.json"
  const WIRE := "-wire.json"
  const DISCARDED := "-discarded"

  function Digit(n: nat): char
    requires n < 10
  {
    '0' + n as char
  }

  function Decimal(n: nat): string
    requires n < 100
  {
    if n < 10 then [Digit(n)] else [Digit(n / 10), Digit(n % 10)]
  }

  function Continuation(page: nat): string
    requires page < 100
  {
    "continuation-" + Decimal(page)
  }

  predicate IsContinuation(name: string) {
    exists page :: 0 <= page < MAX_CONTINUATIONS && name == Continuation(page)
  }

  function CaseExpectation(name: string): Option<Expectation> {
    if IsContinuation(name) then Some(Expectation(true, 0, 0))
    else if name == "mixed" then Some(Expectation(true, 2, 1))
    else if name == "provider-refusal" then Some(Expectation(false, 0, 1))
    else if name in REFUSALS then Some(Expectation(false, 0, 0))
    else None
  }

  /** The cases of a run with this many continuation pages. */
  function Cases(pages: nat): (names: seq<string>)
    requires pages <= MAX_CONTINUATIONS
    ensures |names| == pages + 6
  {
    [FIRST] + seq(pages, page requires 0 <= page < pages => Continuation(page)) + REFUSALS
  }

  lemma ContinuationsDiffer(a: nat, b: nat)
    requires a < b < 100
    ensures Continuation(a) != Continuation(b)
  {
    var p := |"continuation-"|;
    assert |Continuation(a)| == p + |Decimal(a)| && |Continuation(b)| == p + |Decimal(b)|;
    assert Continuation(a)[p..] == Decimal(a) && Continuation(b)[p..] == Decimal(b);
    if |Decimal(a)| == |Decimal(b)| {
      var x, y := Decimal(a), Decimal(b);
      if a < 10 {
        assert x[0] != y[0];
      } else {
        assert x[0] != y[0] || x[1] != y[1];
      }
    }
  }

  /** Fixed names differ in length from each other, and from continuations in length or first letter. */
  lemma ContinuationIsNotFixed(page: nat)
    requires page < 100
    ensures Continuation(page) != FIRST && Continuation(page) !in REFUSALS
  {
    var name := Continuation(page);
    assert name[0] == 'c' && 14 <= |name| <= 15;
    assert REFUSALS[1][0] == 'i';
  }

  lemma CasesDiffer(pages: nat, i: nat, j: nat)
    requires pages <= MAX_CONTINUATIONS && i < j < pages + 6
    ensures Cases(pages)[i] != Cases(pages)[j]
  {
    var names := Cases(pages);
    if 1 <= i <= pages {
      ContinuationIsNotFixed(i - 1);
      assert names[i] == Continuation(i - 1);
    }
    if 1 <= j <= pages {
      ContinuationIsNotFixed(j - 1);
      assert names[j] == Continuation(j - 1);
    } else {
      assert names[j] == REFUSALS[j - pages - 1];
    }
    if 1 <= i && j <= pages {
      ContinuationsDiffer(i - 1, j - 1);
    } else if i > pages {
      assert names[i] == REFUSALS[i - pages - 1];
      assert |REFUSALS[i - pages - 1]| != |REFUSALS[j - pages - 1]|;
    } else if i == 0 {
      assert names[0] == FIRST;
    }
  }

  /** The decimal digits of a number below a hundred, without leading zeros. */
  lemma DecimalIs(n: nat)
    requires n < 100
    ensures var d := Decimal(n);
            && (forall k :: 0 <= k < |d| ==> '0' <= d[k] <= '9')
            && (if n < 10 then |d| == 1 && d[0] as int - '0' as int == n
                else |d| == 2 && 10 * (d[0] as int - '0' as int) + (d[1] as int - '0' as int) == n)
  {}

  /** Every case of a run, by its place: its name, and what it is expected to do. */
  lemma CaseTable(pages: nat, i: nat)
    requires pages <= 20 && i < pages + 6
    ensures pages <= MAX_CONTINUATIONS
    ensures var name := Cases(pages)[i];
            if i == 0 then name == "mixed" && CaseExpectation(name) == Some(Expectation(true, 2, 1))
            else if i <= pages then name == "continuation-" + Decimal(i - 1) && CaseExpectation(name) == Some(Expectation(true, 0, 0))
            else
              && name == ["invalid", "invalid-cursor", "provider-refusal", "retired-new", "retired-continuation"][i - pages - 1]
              && CaseExpectation(name) == Some(Expectation(false, 0, if name == "provider-refusal" then 1 else 0))
  {
    var name := Cases(pages)[i];
    if 1 <= i <= pages {
      assert name == Continuation(i - 1);
    } else {
      assert i > 0 ==> name == REFUSALS[i - pages - 1];
      forall page | 0 <= page < MAX_CONTINUATIONS
        ensures name != Continuation(page)
      {
        ContinuationIsNotFixed(page);
      }
    }
  }

  /** And no other name is a case. */
  lemma OtherNamesAreNoCases(name: string)
    ensures CaseExpectation(name).Some? <==> exists pages: nat, i: nat :: pages <= 20 && i < pages + 6 && name == Cases(pages)[i]
  {
    if CaseExpectation(name).Some? {
      if page :| 0 <= page < MAX_CONTINUATIONS && name == Continuation(page) {
        assert name == Cases(20)[page + 1];
      } else if name == "mixed" {
        assert name == Cases(0)[0];
      } else {
        assert name in REFUSALS || name == "provider-refusal";
        assert REFUSALS[2] == "provider-refusal";
        var k :| 0 <= k < |REFUSALS| && REFUSALS[k] == name;
        assert name == Cases(0)[1 + k];
      }
    }
    if pages: nat, i: nat :| pages <= 20 && i < pages + 6 && name == Cases(pages)[i] {
      CaseTable(pages, i);
    }
  }

  // ----- File names -----

  predicate EndsWith(name: string, suffix: string) {
    |suffix| <= |name| && name[|name| - |suffix|..] == suffix
  }

  predicate IsWindowFile(name: string) {
    EndsWith(name, OBSERVATION) || EndsWith(name, WIRE)
  }

  function ObservationFile(name: string): string { name + OBSERVATION }

  function WireFile(name: string): string { name + WIRE }

  /** A case's discarded window is kept under this name. */
  function DiscardedName(name: string): string { name + DISCARDED }

  lemma SuffixRemains(name: string, suffix: string)
    ensures EndsWith(name + suffix, suffix)
    ensures (name + suffix)[..|name|] == name
  {}

  /** A window file's name splits into window and suffix in one way only. */
  lemma WindowFilesDiffer(a: string, b: string)
    ensures ObservationFile(a) == ObservationFile(b) ==> a == b
    ensures WireFile(a) == WireFile(b) ==> a == b
    ensures ObservationFile(a) != WireFile(b)
    ensures DiscardedName(a) == DiscardedName(b) ==> a == b
  {
    SuffixRemains(a, OBSERVATION);
    SuffixRemains(b, OBSERVATION);
    SuffixRemains(a, WIRE);
    SuffixRemains(b, WIRE);
    SuffixRemains(a, DISCARDED);
    SuffixRemains(b, DISCARDED);
    assert ObservationFile(a)[|ObservationFile(a)| - 6] == OBSERVATION[11] == 'n';
    assert WireFile(b)[|WireFile(b)| - 6] == WIRE[4] == 'e';
  }

  /** No case is named like a discarded window. */
  lemma NoCaseIsDiscarded(pages: nat, i: nat, other: string)
    requires pages <= MAX_CONTINUATIONS && i < pages + 6
    ensures Cases(pages)[i] != DiscardedName(other)
  {
    var names := Cases(pages);
    var name := names[i];
    var discarded := DiscardedName(other);
    assert |discarded| >= 10 && discarded[|discarded| - 1] == DISCARDED[9] == 'd';
    if 1 <= i <= pages {
      assert name == Continuation(i - 1);
      assert name[|name| - 1] == Decimal(i - 1)[|Decimal(i - 1)| - 1];
      assert Digit((i - 1) % 10) != 'd';
    } else if i > pages {
      assert name == REFUSALS[i - pages - 1];
    }
  }
}
