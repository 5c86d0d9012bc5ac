/** The name under which `uploadFile` stores a file (src/lib/supabase.ts:14):
    the millisecond clock in decimal, a `-`, and the file's name with every
    code unit other than an ASCII letter, a digit or `.` replaced by `_`. */
module Upload {
  import opened Strings

  /** A UTF-16 code unit. The pattern has no `u` flag, so `replace` looks at
      code units: a character outside the Basic Multilingual Plane is two
      units and becomes two `_`. */
  newtype CodeUnit = x: int | 0 <= x < 0x1_0000

  const Dash: CodeUnit := 45
  const Dot: CodeUnit := 46
  const Underscore: CodeUnit := 95

  /** `[a-zA-Z0-9.]`. */
  predicate Allowed(u: CodeUnit)
  {
    65 <= u <= 90 || 97 <= u <= 122 || 48 <= u <= 57 || u == Dot
  }

  /** `name.replace(/[^a-zA-Z0-9.]/g, "_")`, scanning from the left. */
  function Sanitize(name: seq<CodeUnit>): (r: seq<CodeUnit>)
    ensures |r| == |name|
  {
    if name == [] then []
    else [if Allowed(name[0]) then name[0] else Underscore] + Sanitize(name[1..])
  }

  /** Position by position: an allowed unit stays where it is, any other
      becomes `_`. */
  lemma {:induction false} SanitizeAt(name: seq<CodeUnit>, k: nat)
    requires k < |name|
    ensures Sanitize(name)[k] == if Allowed(name[k]) then name[k] else Underscore
    decreases k
  {
    if k > 0 {
      SanitizeAt(name[1..], k - 1);
    }
  }

  /** Every unit of the result is an ASCII letter, a digit, `.` or `_`. */
  lemma SanitizeSafe(name: seq<CodeUnit>)
    ensures forall k :: 0 <= k < |name| ==> Allowed(Sanitize(name)[k]) || Sanitize(name)[k] == Underscore
  {
    forall k | 0 <= k < |name|
      ensures Allowed(Sanitize(name)[k]) || Sanitize(name)[k] == Underscore
    {
      SanitizeAt(name, k);
    }
  }

  /** A name is left as it is exactly when it holds only allowed units and
      `_`. */
  lemma SanitizeFixed(name: seq<CodeUnit>)
    ensures Sanitize(name) == name <==> forall k :: 0 <= k < |name| ==> Allowed(name[k]) || name[k] == Underscore
  {
    if Sanitize(name) == name {
      SanitizeSafe(name);
    } else {
      var k :| 0 <= k < |name| && Sanitize(name)[k] != name[k];
      SanitizeAt(name, k);
    }
    if forall k :: 0 <= k < |name| ==> Allowed(name[k]) || name[k] == Underscore {
      forall k | 0 <= k < |name|
        ensures Sanitize(name)[k] == name[k]
      {
        SanitizeAt(name, k);
      }
    }
  }

  /** Sanitising twice is sanitising once. */
  lemma SanitizeIdempotent(name: seq<CodeUnit>)
    ensures Sanitize(Sanitize(name)) == Sanitize(name)
  {
    SanitizeSafe(name);
    SanitizeFixed(Sanitize(name));
  }

  /** `${n}` for a non-negative integer, as code units. */
  function DecimalUnits(n: nat): (r: seq<CodeUnit>)
    ensures |r| == |NatToString(n)|
    ensures forall k :: 0 <= k < |r| ==> r[k] as int == NatToString(n)[k] as int && 48 <= r[k] <= 57
  {
    var d := NatToString(n);
    seq(|d|, k requires 0 <= k < |d| => (d[k] as int) as CodeUnit)
  }

  /** Distinct clocks render as distinct digits. */
  lemma DecimalUnitsInjective(m: nat, n: nat)
    requires DecimalUnits(m) == DecimalUnits(n)
    ensures m == n
  {
    var a := NatToString(m);
    var b := NatToString(n);
    assert |a| == |b|;
    forall k | 0 <= k < |a|
      ensures a[k] == b[k]
    {
      assert DecimalUnits(m)[k] == DecimalUnits(n)[k];
    }
    assert a == b;
    NatToStringInjective(m, n);
  }

  /** `uniqueFileName` with `Date.now()` as `now`. */
  function UniqueFileName(now: nat, name: seq<CodeUnit>): seq<CodeUnit>
  {
    DecimalUnits(now) + [Dash] + Sanitize(name)
  }

  /** The index of the first `-`, or the length when there is none. */
  function DashIndex(u: seq<CodeUnit>): (i: nat)
    ensures i <= |u|
    ensures forall k :: 0 <= k < i ==> u[k] != Dash
    ensures i < |u| ==> u[i] == Dash
  {
    if u == [] || u[0] == Dash then 0 else 1 + DashIndex(u[1..])
  }

  /** The stored name splits back at its first `-` into the clock's digits and
      the sanitised name. */
  lemma UniqueFileNameSplits(now: nat, name: seq<CodeUnit>)
    ensures var u := UniqueFileName(now, name);
      && DashIndex(u) == |DecimalUnits(now)|
      && u[..DashIndex(u)] == DecimalUnits(now)
      && u[DashIndex(u) + 1..] == Sanitize(name)
  {
    var d := DecimalUnits(now);
    var u := UniqueFileName(now, name);
    var i := DashIndex(u);
    assert u[|d|] == Dash;
    assert i == |d|;
    assert u[..i] == d;
    assert u[i + 1..] == Sanitize(name);
  }

  /** Two uploads at different clock readings never share a name. */
  lemma UniqueFileNamesDiffer(m: nat, n: nat, a: seq<CodeUnit>, b: seq<CodeUnit>)
    requires m != n
    ensures UniqueFileName(m, a) != UniqueFileName(n, b)
  {
    if UniqueFileName(m, a) == UniqueFileName(n, b) {
      UniqueFileNameSplits(m, a);
      UniqueFileNameSplits(n, b);
      DecimalUnitsInjective(m, n);
    }
  }
}
