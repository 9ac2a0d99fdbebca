/** Steps 1 and 2 of `simplify_csv`: which requested columns the table has, which
    it lacks, and the "similar column" hints logged for the lacking ones. */
module ColumnResolution {
  import opened Strings

  /** The requested names the header has, in requested order (repeats kept). */
  function Present(header: seq<string>, targets: seq<string>): (p: seq<string>)
    ensures |p| <= |targets|
    ensures forall k :: 0 <= k < |p| ==> p[k] in header && p[k] in targets
  {
    if targets == [] then []
    else (if targets[0] in header then [targets[0]] else []) + Present(header, targets[1..])
  }

  /** The requested names the header lacks, in requested order (repeats kept). */
  function Missing(header: seq<string>, targets: seq<string>): (m: seq<string>)
    ensures |m| <= |targets|
    ensures forall k :: 0 <= k < |m| ==> m[k] !in header && m[k] in targets
  {
    if targets == [] then []
    else (if targets[0] !in header then [targets[0]] else []) + Missing(header, targets[1..])
  }

  /** Both lists are filters: splitting the request splits each list the same way,
      so each keeps the requested order. */
  lemma {:induction false} ResolveSplits(header: seq<string>, a: seq<string>, b: seq<string>)
    ensures Present(header, a + b) == Present(header, a) + Present(header, b)
    ensures Missing(header, a + b) == Missing(header, a) + Missing(header, b)
    decreases |a|
  {
    if a == [] {
      assert a + b == b;
    } else {
      var ab := a + b;
      assert ab[0] == a[0];
      assert ab[1..] == a[1..] + b;
      ResolveSplits(header, a[1..], b);
    }
  }

  /** A name is in the present list exactly when it was requested and the header
      has it, and in the missing list exactly when it was requested and the header
      lacks it. */
  lemma {:induction false} ResolveMembers(header: seq<string>, targets: seq<string>, x: string)
    ensures x in Present(header, targets) <==> x in targets && x in header
    ensures x in Missing(header, targets) <==> x in targets && x !in header
  {
    if targets != [] {
      ResolveMembers(header, targets[1..], x);
      assert targets == [targets[0]] + targets[1..];
    }
  }

  /** When the header has every requested name the request passes through whole;
      when it has none, nothing is present and everything is missing. */
  lemma {:induction false} ResolveExtremes(header: seq<string>, targets: seq<string>)
    ensures (forall k :: 0 <= k < |targets| ==> targets[k] in header) ==>
      Present(header, targets) == targets && Missing(header, targets) == []
    ensures (forall k :: 0 <= k < |targets| ==> targets[k] !in header) ==>
      Present(header, targets) == [] && Missing(header, targets) == targets
  {
    if targets != [] {
      ResolveExtremes(header, targets[1..]);
      assert forall k :: 1 <= k < |targets| ==> targets[1..][k - 1] == targets[k];
    }
  }

  /** Present and missing partition the request: every requested name, counted
      with its repeats, lands in exactly one of the two lists. */
  lemma {:induction false} ResolvePartitions(header: seq<string>, targets: seq<string>)
    ensures multiset(Present(header, targets)) + multiset(Missing(header, targets)) == multiset(targets)
    ensures |Present(header, targets)| + |Missing(header, targets)| == |targets|
  {
    if targets != [] {
      ResolvePartitions(header, targets[1..]);
      assert targets == [targets[0]] + targets[1..];
    }
  }

  /** Extending the request by one name extends exactly one of the two lists by it. */
  lemma ResolveStep(header: seq<string>, targets: seq<string>, k: nat)
    requires k < |targets|
    ensures Present(header, targets[..k + 1]) ==
      Present(header, targets[..k]) + (if targets[k] in header then [targets[k]] else [])
    ensures Missing(header, targets[..k + 1]) ==
      Missing(header, targets[..k]) + (if targets[k] in header then [] else [targets[k]])
  {
    ResolveSplits(header, targets[..k], [targets[k]]);
    assert targets[..k + 1] == targets[..k] + [targets[k]];
    assert [targets[k]][1..] == [];
  }

  /** Lines 45-52 of the source: one pass over the request, appending each name
      to the present or the missing list. */
  method ResolveColumns(header: seq<string>, targets: seq<string>)
    returns (existing: seq<string>, missing: seq<string>)
    ensures existing == Present(header, targets)
    ensures missing == Missing(header, targets)
  {
    existing, missing := [], [];
    var k := 0;
    while k < |targets|
      invariant 0 <= k <= |targets|
      invariant existing == Present(header, targets[..k])
      invariant missing == Missing(header, targets[..k])
    {
      var col := targets[k];
      ResolveStep(header, targets, k);
      if col in header {
        existing := existing + [col];
      } else {
        missing := missing + [col];
      }
      k := k + 1;
    }
    assert targets[..k] == targets;
  }

  /** Two names are similar when, lower-cased, either contains the other. */
  predicate Similar(missing: string, column: string) {
    Contains(Lower(column), Lower(missing)) || Contains(Lower(missing), Lower(column))
  }

  /** The header names similar to one missing name, in header order. */
  function SimilarColumns(header: seq<string>, missing: string): (r: seq<string>)
    ensures |r| <= |header|
    ensures forall c :: c in r <==> c in header && Similar(missing, c)
  {
    if header == [] then []
    else (if Similar(missing, header[0]) then [header[0]] else []) + SimilarColumns(header[1..], missing)
  }

  /** A hint says which header names look like a missing name. */
  datatype Hint = Hint(missing: string, similar: seq<string>)

  /** The hints logged for the missing names: one per missing name that has at
      least one similar header name, in the order of the missing list. */
  function Hints(header: seq<string>, missing: seq<string>): (hs: seq<Hint>)
    ensures |hs| <= |missing|
    ensures forall h :: h in hs ==> h.missing in missing && h.similar != [] && h.similar == SimilarColumns(header, h.missing)
    ensures forall m :: m in missing && SimilarColumns(header, m) != [] ==> Hint(m, SimilarColumns(header, m)) in hs
  {
    if missing == [] then []
    else
      var similar := SimilarColumns(header, missing[0]);
      (if similar != [] then [Hint(missing[0], similar)] else []) + Hints(header, missing[1..])
  }

  /** The hint relation spelled out with substring occurrences: `c` is suggested
      for `m` exactly when `c` is a header name and, lower-cased, one of the two
      occurs inside the other at some offset. */
  lemma SimilarByOccurrence(header: seq<string>, m: string, c: string)
    ensures c in SimilarColumns(header, m) <==>
      c in header && (Occurs(Lower(c), Lower(m)) || Occurs(Lower(m), Lower(c)))
  {
    ContainsIffOccurs(Lower(c), Lower(m));
    ContainsIffOccurs(Lower(m), Lower(c));
  }

  /** A header name that differs from the missing name only in letter case is
      always among the hints, and so is one that extends it. */
  lemma CaseVariantSuggested(header: seq<string>, m: string, c: string, extra: string)
    requires c in header && Lower(c) == Lower(m) + Lower(extra)
    ensures c in SimilarColumns(header, m)
  {
  }

  /** Hints never name a column the request asked for by its exact name: a
      hinted column is in the header, the name it stands in for is not. */
  lemma HintsAreNotMatches(header: seq<string>, targets: seq<string>, h: Hint, c: string)
    requires h in Hints(header, Missing(header, targets)) && c in h.similar
    ensures c in header && h.missing !in header && c != h.missing
  {
  }
}
