/** The CORS policy set up at bootstrap: the allow-list is assembled from
    the `DASHBOARD_ORIGINS` list, the single `DASHBOARD_ORIGIN` and three
    local development origins, de-duplicated, and every request origin is
    decided against it. Environment variables are passed in as optional
    strings (`None` when unset); the framework wiring is not modelled. */
module CorsOrigins {
  import opened Wrappers
  import JsStrings

  /** The development origins that are always allowed. */
  const DevDefaults: seq<string> := ["http://localhost:3000", "http://localhost:3001", "http://localhost:3002"]

  /** JavaScript truthiness of an optional string: set and not empty. */
  predicate Truthy(value: Option<string>) {
    value.Some? && value.value != ""
  }

  predicate NoDuplicates<T(==)>(xs: seq<T>) {
    forall i, j :: 0 <= i < j < |xs| ==> xs[i] != xs[j]
  }

  /** `xs.filter(Boolean)` on strings: drops the empty ones, keeps the order. */
  function NonEmpty(xs: seq<string>): (r: seq<string>)
    ensures forall k :: 0 <= k < |r| ==> r[k] != ""
    ensures forall x :: x in r <==> x in xs && x != ""
    decreases |xs|
  {
    if |xs| == 0 then []
    else if xs[0] == "" then NonEmpty(xs[1..])
    else [xs[0]] + NonEmpty(xs[1..])
  }

  lemma {:induction false} NonEmptyAppend(a: seq<string>, b: seq<string>)
    ensures NonEmpty(a + b) == NonEmpty(a) + NonEmpty(b)
    decreases |a|
  {
    if |a| > 0 {
      assert (a + b)[1..] == a[1..] + b;
      NonEmptyAppend(a[1..], b);
    } else {
      assert a + b == b;
    }
  }

  /** Filtering a list without empty strings leaves it as it is. */
  lemma {:induction false} NonEmptyKeepsFilled(xs: seq<string>)
    requires forall k :: 0 <= k < |xs| ==> xs[k] != ""
    ensures NonEmpty(xs) == xs
    decreases |xs|
  {
    if |xs| > 0 {
      NonEmptyKeepsFilled(xs[1..]);
    }
  }

  /** `.map((s) => s.trim())`. */
  function TrimAll(xs: seq<string>): (r: seq<string>)
    ensures |r| == |xs|
    ensures forall k :: 0 <= k < |xs| ==> r[k] == JsStrings.Trim(xs[k])
  {
    seq(|xs|, k requires 0 <= k < |xs| => JsStrings.Trim(xs[k]))
  }

  /** Trimming comma-free pieces gives trimmed comma-free strings, each the trim of some piece. */
  lemma TrimmedPieces(pieces: seq<string>)
    requires forall k :: 0 <= k < |pieces| ==> ',' !in pieces[k]
    ensures forall x :: x in TrimAll(pieces) ==> ',' !in x && JsStrings.IsTrimmed(x)
    ensures forall x :: x in TrimAll(pieces) <==> exists p :: p in pieces && JsStrings.Trim(p) == x
  {
  }

  /** `parseOrigins`: nothing for an unset or empty value, otherwise the
      comma-separated pieces, trimmed, with the empty ones dropped. */
  function ParseOrigins(value: Option<string>): (origins: seq<string>)
    ensures !Truthy(value) ==> origins == []
    ensures forall k :: 0 <= k < |origins| ==>
      origins[k] != "" && JsStrings.IsTrimmed(origins[k]) && ',' !in origins[k]
    ensures Truthy(value) ==> forall x :: x in origins <==>
      x != "" && exists p :: p in JsStrings.Split(value.value, ',') && JsStrings.Trim(p) == x
  {
    if !Truthy(value) then []
    else
      var pieces := JsStrings.Split(value.value, ',');
      TrimmedPieces(pieces);
      NonEmpty(TrimAll(pieces))
  }

  /** A join of pieces is at least as long as its first piece. */
  lemma {:induction false} JoinNotShorter(pieces: seq<string>, sep: char)
    requires |pieces| > 0
    ensures |JsStrings.Join(pieces, sep)| >= |pieces[0]|
  {
  }

  /** Writing a list of clean origins comma-separated and parsing it gives the
      list back: order and multiplicity are kept. */
  lemma ParseOriginsOfJoin(origins: seq<string>)
    requires |origins| > 0
    requires forall k :: 0 <= k < |origins| ==>
      origins[k] != "" && JsStrings.IsTrimmed(origins[k]) && ',' !in origins[k]
    ensures ParseOrigins(Some(JsStrings.Join(origins, ','))) == origins
  {
    var value := JsStrings.Join(origins, ',');
    JoinNotShorter(origins, ',');
    assert Truthy(Some(value));
    JsStrings.SplitJoin(origins, ',');
    assert ParseOrigins(Some(value)) == NonEmpty(TrimAll(origins));
    TrimAllTrimmed(origins);
    NonEmptyKeepsFilled(origins);
  }

  lemma TrimAllTrimmed(xs: seq<string>)
    requires forall k :: 0 <= k < |xs| ==> JsStrings.IsTrimmed(xs[k])
    ensures TrimAll(xs) == xs
  {
  }

  /** For a set value the parse is the filtered trims of the split pieces;
      the empty value fits the same shape, its one piece trimming to nothing. */
  lemma ParseOriginsPieces(value: string)
    ensures ParseOrigins(Some(value)) == NonEmpty(TrimAll(JsStrings.Split(value, ',')))
  {
    if value == "" {
      assert JsStrings.Split(value, ',') == [""];
      assert TrimAll([""]) == [""];
    }
  }

  /** The origins of `a,b` are the origins of `a` followed by those of `b`:
      parsing keeps the input order. */
  lemma ParseOriginsAppend(a: string, b: string)
    ensures ParseOrigins(Some(a + "," + b)) == ParseOrigins(Some(a)) + ParseOrigins(Some(b))
  {
    assert a + "," + b == a + [','] + b;
    PiecesAppend(a, b);
    ParseOriginsPieces(a + "," + b);
    ParseOriginsPieces(a);
    ParseOriginsPieces(b);
  }

  lemma PiecesAppend(a: string, b: string)
    ensures NonEmpty(TrimAll(JsStrings.Split(a + [','] + b, ',')))
         == NonEmpty(TrimAll(JsStrings.Split(a, ','))) + NonEmpty(TrimAll(JsStrings.Split(b, ',')))
  {
    var pa, pb := JsStrings.Split(a, ','), JsStrings.Split(b, ',');
    JsStrings.SplitAppend(a, b, ',');
    TrimAllAppend(pa, pb);
    NonEmptyAppend(TrimAll(pa), TrimAll(pb));
  }

  lemma TrimAllAppend(p: seq<string>, q: seq<string>)
    ensures TrimAll(p + q) == TrimAll(p) + TrimAll(q)
  {
    var l, r := TrimAll(p + q), TrimAll(p) + TrimAll(q);
    forall k | 0 <= k < |p| + |q|
      ensures l[k] == r[k]
    {
      if k < |p| {
        assert (p + q)[k] == p[k];
      } else {
        assert (p + q)[k] == q[k - |p|];
      }
    }
  }

  /** The allow-list before de-duplication: the env list, the legacy origin
      when set and non-empty, then the three development origins, with empty
      entries dropped. */
  function AllowedOrigins(fromList: seq<string>, legacy: Option<string>): (r: seq<string>)
    ensures r == NonEmpty(fromList) + (if Truthy(legacy) then [legacy.value] else []) + DevDefaults
    ensures forall x :: x in r <==>
      (x in fromList && x != "") || (Truthy(legacy) && x == legacy.value) || x in DevDefaults
  {
    var legacyPart := if Truthy(legacy) then [legacy.value] else [];
    NonEmptyAppend(fromList + legacyPart, DevDefaults);
    NonEmptyAppend(fromList, legacyPart);
    NonEmptyKeepsFilled(legacyPart);
    NonEmptyKeepsFilled(DevDefaults);
    NonEmpty(fromList + legacyPart + DevDefaults)
  }

  /** Position of the first `x` in `xs`. */
  function FirstPosition<T(==)>(xs: seq<T>, x: T): (k: nat)
    requires x in xs
    ensures k < |xs| && xs[k] == x && x !in xs[..k]
    decreases |xs|
  {
    if xs[0] == x then 0
    else
      var k := FirstPosition(xs[1..], x);
      assert xs[..k + 1] == [xs[0]] + xs[1..][..k];
      k + 1
  }

  /** `r` lists its elements in the order of their first occurrence in `xs`. */
  ghost predicate InFirstOccurrenceOrder<T>(xs: seq<T>, r: seq<T>) {
    forall i, j :: 0 <= i < j < |r| ==>
      r[i] in xs && r[j] in xs && FirstPosition(xs, r[i]) < FirstPosition(xs, r[j])
  }

  lemma FirstPositionInPrefix<T>(xs: seq<T>, n: nat, x: T)
    requires n <= |xs| && x in xs[..n]
    ensures x in xs && FirstPosition(xs, x) == FirstPosition(xs[..n], x)
  {
    var k := FirstPosition(xs[..n], x);
    assert xs[..k] == xs[..n][..k];
  }

  /** `Array.from(new Set(xs))`: each value once, at the place it first occurs. */
  function Dedup<T(==,!new)>(xs: seq<T>): (r: seq<T>)
    ensures NoDuplicates(r)
    ensures forall x :: x in r <==> x in xs
    ensures InFirstOccurrenceOrder(xs, r)
    decreases |xs|
  {
    if |xs| == 0 then []
    else
      var init := xs[..|xs| - 1];
      var last := xs[|xs| - 1];
      var d := Dedup(init);
      assert xs == init + [last];
      forall x | x in d
        ensures x in xs && FirstPosition(xs, x) == FirstPosition(init, x)
      {
        FirstPositionInPrefix(xs, |xs| - 1, x);
      }
      if last in d then d
      else
        assert FirstPosition(xs, last) == |xs| - 1;
        d + [last]
  }

  /** The allow-list the server ends up with. */
  function AllowedOriginsUnique(dashboardOrigins: Option<string>, dashboardOrigin: Option<string>): (r: seq<string>)
    ensures NoDuplicates(r)
    ensures forall k :: 0 <= k < |DevDefaults| ==> DevDefaults[k] in r
    ensures forall x :: x in r <==>
      x in ParseOrigins(dashboardOrigins) || (Truthy(dashboardOrigin) && x == dashboardOrigin.value) || x in DevDefaults
    ensures InFirstOccurrenceOrder(AllowedOrigins(ParseOrigins(dashboardOrigins), dashboardOrigin), r)
  {
    Dedup(AllowedOrigins(ParseOrigins(dashboardOrigins), dashboardOrigin))
  }

  /** What the `origin` callback answers: allowed, or blocked with an error. */
  datatype CorsDecision = Allow | Block(message: string)

  /** The `origin` callback: requests without an origin (or an empty one) and
      listed origins pass; anything else is refused. */
  function OriginDecision(allowed: seq<string>, origin: Option<string>): (d: CorsDecision)
    ensures d == Allow <==> !Truthy(origin) || origin.value in allowed
    ensures d.Block? ==> d.message == "CORS blocked for origin: " + origin.value
  {
    if !Truthy(origin) then Allow
    else if origin.value in allowed then Allow
    else Block("CORS blocked for origin: " + origin.value)
  }

  /** De-duplicating the list never changes a decision. */
  lemma DecisionIgnoresDuplicates(xs: seq<string>, origin: Option<string>)
    ensures OriginDecision(Dedup(xs), origin) == OriginDecision(xs, origin)
  {
  }

  /** The development origins are allowed whatever the environment holds. */
  lemma DevDefaultsAlwaysAllowed(dashboardOrigins: Option<string>, dashboardOrigin: Option<string>, k: nat)
    requires k < |DevDefaults|
    ensures OriginDecision(AllowedOriginsUnique(dashboardOrigins, dashboardOrigin), Some(DevDefaults[k])) == Allow
  {
  }

  /** With both variables unset only the development origins (and origin-less requests) pass. */
  lemma UnconfiguredAllowsOnlyDefaults(origin: string)
    requires origin != ""
    ensures OriginDecision(AllowedOriginsUnique(None, None), Some(origin)) == Allow <==> origin in DevDefaults
  {
  }
}
