/** Go durations and the grace period derived from them.  Seconds are exact reals
    and digits are ASCII. */
module ShutdownBudget {
  import opened Sequences

  datatype Option<+T> = None | Some(value: T)

  // ----- the grammar of durations -----

  datatype Unit = Nanosecond | Microsecond | MicroSign | Millisecond | Second | Minute | Hour

  function UnitText(u: Unit): string {
    match u
    case Nanosecond => "ns"
    case Microsecond => "us"
    case MicroSign => "\U{B5}s"
    case Millisecond => "ms"
    case Second => "s"
    case Minute => "m"
    case Hour => "h"
  }

  function UnitSeconds(u: Unit): (x: real)
    ensures x > 0.0
  {
    match u
    case Nanosecond => 0.000000001
    case Microsecond => 0.000001
    case MicroSign => 0.000001
    case Millisecond => 0.001
    case Second => 1.0
    case Minute => 60.0
    case Hour => 3600.0
  }

  predicate IsDigit(c: char) { '0' <= c <= '9' }

  predicate AllDigits(s: string) {
    s != "" && forall i :: 0 <= i < |s| ==> IsDigit(s[i])
  }

  /** A number with its unit; an absent fraction is empty. */
  datatype Component = Component(whole: string, fraction: string, unit: Unit)

  predicate Valid(c: Component) {
    AllDigits(c.whole) && (c.fraction == "" || AllDigits(c.fraction))
  }

  function FractionText(f: string): string {
    if f == "" then "" else "." + f
  }

  function Text(c: Component): string {
    c.whole + (FractionText(c.fraction) + UnitText(c.unit))
  }

  function Spelled(parts: seq<Component>): string
    decreases |parts|
  {
    if parts == [] then "" else Text(parts[0]) + Spelled(parts[1..])
  }

  ghost predicate Spells(parts: seq<Component>, s: string) {
    parts != [] && (forall c :: c in parts ==> Valid(c)) && Spelled(parts) == s
  }

  // ----- the scanner -----

  function TakeDigits(s: string): (r: (string, string))
    ensures r.0 + r.1 == s
    ensures forall i :: 0 <= i < |r.0| ==> IsDigit(r.0[i])
    decreases |s|
  {
    if s != "" && IsDigit(s[0]) then
      var (digits, rest) := TakeDigits(s[1..]);
      ([s[0]] + digits, rest)
    else ("", s)
  }

  predicate StartsWith(s: string, prefix: string) {
    |prefix| <= |s| && s[..|prefix|] == prefix
  }

  /** The unit alternatives in the order they are tried. */
  function TakeUnit(s: string): (u: Option<Unit>)
    ensures u.Some? ==> |UnitText(u.value)| <= |s|
  {
    if StartsWith(s, "ns") then Some(Nanosecond)
    else if StartsWith(s, "us") then Some(Microsecond)
    else if StartsWith(s, "\U{B5}s") then Some(MicroSign)
    else if StartsWith(s, "ms") then Some(Millisecond)
    else if StartsWith(s, "s") then Some(Second)
    else if StartsWith(s, "m") then Some(Minute)
    else if StartsWith(s, "h") then Some(Hour)
    else None
  }

  function TakeFraction(s: string): (r: (string, string))
    ensures FractionText(r.0) + r.1 == s
    ensures r.0 == "" || AllDigits(r.0)
  {
    if s != "" && s[0] == '.' && TakeDigits(s[1..]).0 != "" then TakeDigits(s[1..]) else ("", s)
  }

  /** The longest component at the head of `s`. */
  function TakeComponent(s: string): (r: Option<Component>)
    ensures r.Some? ==> Valid(r.value) && 0 < |Text(r.value)| <= |s|
  {
    var (whole, afterWhole) := TakeDigits(s);
    var (fraction, afterFraction) := TakeFraction(afterWhole);
    if whole == "" then None
    else match TakeUnit(afterFraction)
      case None => None
      case Some(unit) => Some(Component(whole, fraction, unit))
  }

  /** All matches from left to right, skipping a character where none begins. */
  function FindAll(s: string): (found: seq<Component>)
    ensures forall c :: c in found ==> Valid(c)
    decreases |s|
  {
    if s == "" then []
    else match TakeComponent(s)
      case None => FindAll(s[1..])
      case Some(c) => [c] + FindAll(s[|Text(c)|..])
  }

  function Number(s: string): nat
    requires forall i :: 0 <= i < |s| ==> IsDigit(s[i])
  {
    if s == "" then 0
    else
      assert IsDigit(s[|s| - 1]);
      10 * Number(s[..|s| - 1]) + (s[|s| - 1] as int - '0' as int)
  }

  function Power10(n: nat): (p: real)
    ensures p >= 1.0
  {
    if n == 0 then 1.0 else 10.0 * Power10(n - 1)
  }

  function Scaled(x: real, unit: real): (y: real)
    requires x >= 0.0 && unit > 0.0
    ensures y >= 0.0
  {
    x * unit
  }

  function Seconds(c: Component): (x: real)
    requires Valid(c)
    ensures x >= 0.0
  {
    Scaled(Number(c.whole) as real + Number(c.fraction) as real / Power10(|c.fraction|), UnitSeconds(c.unit))
  }

  function TotalSeconds(parts: seq<Component>): (x: real)
    requires forall c :: c in parts ==> Valid(c)
    ensures x >= 0.0
    decreases |parts|
  {
    if parts == [] then 0.0 else Seconds(parts[0]) + TotalSeconds(parts[1..])
  }

  /** `None` where the source raises: an empty text, no match, or text between the
      matches. */
  function ParseGoDuration(s: string): Option<real> {
    var found := FindAll(s);
    if found == [] || Spelled(found) != s then None else Some(TotalSeconds(found))
  }

  // ----- the scanner is the grammar -----

  lemma {:induction false} DigitsTaken(digits: string, rest: string)
    requires forall i :: 0 <= i < |digits| ==> IsDigit(digits[i])
    requires rest == "" || !IsDigit(rest[0])
    ensures TakeDigits(digits + rest) == (digits, rest)
    decreases |digits|
  {
    if digits == "" {
      assert digits + rest == rest;
    } else {
      assert (digits + rest)[1..] == digits[1..] + rest;
      DigitsTaken(digits[1..], rest);
      assert [digits[0]] + digits[1..] == digits;
    }
  }

  lemma UnitTaken(u: Unit, rest: string)
    requires rest == "" || IsDigit(rest[0])
    ensures TakeUnit(UnitText(u) + rest) == Some(u)
  {
    var s := UnitText(u) + rest;
    assert s[..|UnitText(u)|] == UnitText(u);
    assert s[0] == UnitText(u)[0];
    if |s| >= 2 {
      assert s[..2] == [s[0], s[1]];
    }
  }

  lemma FractionTaken(fraction: string, unit: string)
    requires fraction == "" || AllDigits(fraction)
    requires unit != "" && !IsDigit(unit[0]) && unit[0] != '.'
    ensures TakeFraction(FractionText(fraction) + unit) == (fraction, unit)
  {
    var tail := FractionText(fraction) + unit;
    if fraction == "" {
      assert tail == unit;
    } else {
      assert tail[0] == '.' && tail[1..] == fraction + unit;
      DigitsTaken(fraction, unit);
    }
  }

  /** A component followed by the next one, or by nothing, is taken whole: `ms` is
      never read as `m` and then `s`. */
  lemma ComponentTaken(c: Component, rest: string)
    requires Valid(c) && (rest == "" || IsDigit(rest[0]))
    ensures TakeComponent(Text(c) + rest) == Some(c)
  {
    var unit := UnitText(c.unit) + rest;
    assert unit[0] == UnitText(c.unit)[0];
    UnitTaken(c.unit, rest);
    FractionTaken(c.fraction, unit);
    var tail := FractionText(c.fraction) + unit;
    assert tail[0] == '.' || tail[0] == unit[0];
    DigitsTaken(c.whole, tail);
    hide UnitText, FractionText, TakeDigits, TakeFraction, TakeUnit;
    Associative(c.whole, FractionText(c.fraction) + UnitText(c.unit), rest);
    Associative(FractionText(c.fraction), UnitText(c.unit), rest);
  }

  lemma StartsWithDigit(parts: seq<Component>)
    requires forall c :: c in parts ==> Valid(c)
    ensures Spelled(parts) == "" || IsDigit(Spelled(parts)[0])
  {
    if parts != [] {
      assert parts[0] in parts && Spelled(parts)[0] == parts[0].whole[0];
    }
  }

  lemma {:induction false} SpelledIsFound(parts: seq<Component>)
    requires forall c :: c in parts ==> Valid(c)
    ensures FindAll(Spelled(parts)) == parts
    decreases |parts|
  {
    if parts != [] {
      assert parts[0] in parts;
      var rest := Spelled(parts[1..]);
      StartsWithDigit(parts[1..]);
      ComponentTaken(parts[0], rest);
      SpelledIsFound(parts[1..]);
      assert Spelled(parts)[|Text(parts[0])|..] == rest;
      assert parts == [parts[0]] + parts[1..];
    }
  }

  /** The find-and-rejoin test accepts exactly the non-empty concatenations of
      components, each in only one way, and the value is theirs. */
  lemma ScannerIsGrammar(s: string)
    ensures ParseGoDuration(s).Some? <==> exists parts :: Spells(parts, s)
    ensures forall parts :: Spells(parts, s) ==>
              parts == FindAll(s) && ParseGoDuration(s) == Some(TotalSeconds(parts))
  {
    if ParseGoDuration(s).Some? {
      assert Spells(FindAll(s), s);
    }
    forall parts | Spells(parts, s) ensures parts == FindAll(s) {
      SpelledIsFound(parts);
    }
  }

  lemma {:induction false} SpelledConcat(a: seq<Component>, b: seq<Component>)
    requires forall c :: c in a || c in b ==> Valid(c)
    ensures Spelled(a + b) == Spelled(a) + Spelled(b)
    ensures TotalSeconds(a + b) == TotalSeconds(a) + TotalSeconds(b)
    decreases |a|
  {
    hide Text, Valid, Seconds;
    if a == [] {
      assert a + b == b;
    } else {
      assert (a + b)[0] == a[0] && (a + b)[1..] == a[1..] + b;
      assert forall c :: c in a[1..] ==> c in a;
      SpelledConcat(a[1..], b);
      Associative(Text(a[0]), Spelled(a[1..]), Spelled(b));
    }
  }

  /** Durations add up over concatenation. */
  lemma DurationsAdd(a: string, b: string)
    requires ParseGoDuration(a).Some? && ParseGoDuration(b).Some?
    ensures ParseGoDuration(a + b) == Some(ParseGoDuration(a).value + ParseGoDuration(b).value)
  {
    hide Spelled, FindAll, TotalSeconds, Valid;
    var parts := FindAll(a) + FindAll(b);
    SpelledConcat(FindAll(a), FindAll(b));
    assert Spells(parts, a + b);
    ScannerIsGrammar(a + b);
  }

  // ----- what a duration is worth -----

  function DigitValue(c: char): nat
    requires IsDigit(c)
  {
    c as int - '0' as int
  }

  /** Digits count in tens: one more digit is ten times the number and that digit. */
  lemma OneMoreDigit(s: string, c: char)
    requires (forall i :: 0 <= i < |s| ==> IsDigit(s[i])) && IsDigit(c)
    ensures forall i :: 0 <= i < |s + [c]| ==> IsDigit((s + [c])[i])
    ensures Number(s + [c]) == 10 * Number(s) + DigitValue(c)
    ensures Number("") == 0
  {
    assert (s + [c])[..|s|] == s;
  }

  /** What a digit is worth at a place behind the point. */
  function PlaceWorth(digit: nat, place: nat, unit: Unit): real {
    Tenths(digit, Power10(place), UnitSeconds(unit))
  }

  function Tenths(digit: nat, power: real, unit: real): real
    requires power >= 1.0
  {
    digit as real / power * unit
  }

  function Worth(whole: nat, fraction: nat, power: real, unit: real): real
    requires power >= 1.0
  {
    (whole as real + fraction as real / power) * unit
  }

  /** One more digit behind the point adds what it is worth at its place. */
  lemma OneMoreDecimal(whole: string, f: string, c: char, unit: Unit)
    requires AllDigits(whole) && (f == "" || AllDigits(f)) && IsDigit(c)
    ensures Valid(Component(whole, f + [c], unit)) && Valid(Component(whole, f, unit))
    ensures Seconds(Component(whole, f + [c], unit)) ==
              Seconds(Component(whole, f, unit)) + PlaceWorth(DigitValue(c), |f| + 1, unit)
  {
    MoreDecimals(whole, f, c, unit);
    var w, n, d := Number(whole), Number(f), DigitValue(c);
    hide *;
    PowersOfTen(|f|);
    SecondsAre(whole, f, unit);
    SecondsAre(whole, f + [c], unit);
    NextPlace(w, n, d, Power10(|f|), UnitSeconds(unit));
    PlaceIsTenths(d, |f| + 1, unit);
    assert |f + [c]| == |f| + 1;
  }

  lemma MoreDecimals(whole: string, f: string, c: char, unit: Unit)
    requires AllDigits(whole) && (f == "" || AllDigits(f)) && IsDigit(c)
    ensures AllDigits(f + [c]) && Valid(Component(whole, f + [c], unit)) && Valid(Component(whole, f, unit))
    ensures Number(f + [c]) == 10 * Number(f) + DigitValue(c)
  {
    hide Number;
    OneMoreDigit(f, c);
  }

  lemma PlaceIsTenths(d: nat, place: nat, unit: Unit)
    ensures PlaceWorth(d, place, unit) == Tenths(d, Power10(place), UnitSeconds(unit))
  {
  }

  /** Each place is worth a tenth of the one before it. */
  lemma PowersOfTen(n: nat)
    ensures Power10(0) == 1.0 && Power10(n + 1) == 10.0 * Power10(n)
  {
  }

  lemma SecondsAre(whole: string, f: string, unit: Unit)
    requires AllDigits(whole) && (f == "" || AllDigits(f))
    ensures Seconds(Component(whole, f, unit)) == Worth(Number(whole), Number(f), Power10(|f|), UnitSeconds(unit))
  {
    hide Number, Power10, UnitSeconds;
  }

  lemma NextPlace(w: nat, n: nat, d: nat, p: real, u: real)
    requires p >= 1.0
    ensures Worth(w, 10 * n + d, 10.0 * p, u) == Worth(w, n, p, u) + Tenths(d, 10.0 * p, u)
  {
    SplitTenth(n as real, d as real, p);
    assert (10 * n + d) as real == 10.0 * n as real + d as real;
    Spread(w as real, n as real / p, d as real / (10.0 * p), u);
  }

  lemma Spread(w: real, a: real, b: real, u: real)
    ensures (w + (a + b)) * u == (w + a) * u + b * u
  {
  }

  lemma SplitTenth(n: real, d: real, p: real)
    requires p >= 1.0
    ensures (10.0 * n + d) / (10.0 * p) == n / p + d / (10.0 * p)
  {
    assert (10.0 * n) / (10.0 * p) == n / p;
  }

  /** The units in terms of each other, the second being one. */
  lemma UnitsAgree()
    ensures UnitSeconds(Second) == 1.0 && UnitSeconds(Minute) == 60.0 && UnitSeconds(Hour) == 3600.0
    ensures UnitSeconds(Minute) == 60.0 * UnitSeconds(Second) && UnitSeconds(Hour) == 60.0 * UnitSeconds(Minute)
    ensures UnitSeconds(Second) == 1000.0 * UnitSeconds(Millisecond)
    ensures UnitSeconds(Millisecond) == 1000.0 * UnitSeconds(Microsecond)
    ensures UnitSeconds(Microsecond) == UnitSeconds(MicroSign) == 1000.0 * UnitSeconds(Nanosecond)
  {
  }

  lemma SecondsOfWhole(digits: string, unit: Unit)
    requires AllDigits(digits)
    ensures TotalSeconds([Component(digits, "", unit)]) == Number(digits) as real * UnitSeconds(unit)
  {
    var c := Component(digits, "", unit);
    assert [c][1..] == [] && TotalSeconds([]) == 0.0;
    assert Number("") == 0 && Power10(0) == 1.0;
    hide Number, UnitSeconds;
    assert Seconds(c) == (Number(digits) as real + 0.0) * UnitSeconds(unit);
  }

  /** A whole number of one unit. */
  lemma WholeDuration(digits: string, unit: Unit)
    requires AllDigits(digits)
    ensures ParseGoDuration(digits + UnitText(unit)) == Some(Number(digits) as real * UnitSeconds(unit))
  {
    var c := Component(digits, "", unit);
    SecondsOfWhole(digits, unit);
    OneComponent(c);
    ScannerIsGrammar(Text(c));
    assert "" + UnitText(unit) == UnitText(unit);
    hide ParseGoDuration, Spells, TotalSeconds, UnitText, UnitSeconds, Number;
    assert Text(c) == digits + UnitText(unit);
  }

  lemma OneComponent(c: Component)
    requires Valid(c)
    ensures Spells([c], Text(c))
  {
    assert [c][1..] == [];
    assert Text(c) + "" == Text(c);
  }

  /** So "60s" is worth "1m", and "60m" is worth "1h". */
  lemma SixtyOfEach()
    ensures ParseGoDuration(['6', '0'] + UnitText(Second)) == ParseGoDuration(['1'] + UnitText(Minute)) == Some(60.0)
    ensures ParseGoDuration(['6', '0'] + UnitText(Minute)) == ParseGoDuration(['1'] + UnitText(Hour)) == Some(3600.0)
  {
    SmallNumbers();
    UnitsAgree();
    hide Number, ParseGoDuration, UnitText, UnitSeconds;
    WholeDuration(['6', '0'], Second);
    WholeDuration(['1'], Minute);
    WholeDuration(['6', '0'], Minute);
    WholeDuration(['1'], Hour);
  }

  lemma SmallNumbers()
    ensures Number(['6', '0']) == 60 && Number(['1']) == 1
  {
    hide Number;
    OneMoreDigit([], '6');
    OneMoreDigit(['6'], '0');
    OneMoreDigit([], '1');
    assert [] + ['6'] == ['6'] && ['6'] + ['0'] == ['6', '0'] && [] + ['1'] == ['1'];
  }

  // ----- the budget -----

  const CUSHION := 15
  const MINIMUM := 60
  const MAXIMUM := 120
  const COMMAND_CUSHION := 15
  const MAX_COMMAND_TIMEOUT := 300.0
  const SETTING_PREFIX := "server.shutdown."

  /** A live setting and its value, in the order the server listed it. */
  type Setting = (string, string)

  datatype Refusal = Unavailable | Malformed | UnsupportedDuration | ExceedsCap
  datatype Budget = Granted(grace: int, phaseTotal: real) | Refused(reason: Refusal)

  function Phase(s: Setting): real {
    match ParseGoDuration(s.1) case Some(x) => x case None => 0.0
  }

  function PhaseTotal(settings: seq<Setting>): real
    decreases |settings|
  {
    if settings == [] then 0.0 else Phase(settings[0]) + PhaseTotal(settings[1..])
  }

  function Ceiling(x: real): int {
    if x.Floor as real == x then x.Floor else x.Floor + 1
  }

  function Budgeted(total: real): Budget {
    var calculated := Ceiling(total) + CUSHION;
    if calculated > MAXIMUM then Refused(ExceedsCap)
    else Granted(if calculated > MINIMUM then calculated else MINIMUM, total)
  }

  function DerivedBudget(settings: seq<Setting>): Budget {
    if settings == [] then Refused(Unavailable)
    else if exists s | s in settings :: !StartsWith(s.0, SETTING_PREFIX) then Refused(Malformed)
    else if exists s | s in settings :: ParseGoDuration(s.1).None? then Refused(UnsupportedDuration)
    else Budgeted(PhaseTotal(settings))
  }

  lemma {:induction false} TotalSplits(settings: seq<Setting>, i: nat)
    requires i <= |settings|
    ensures PhaseTotal(settings) == PhaseTotal(settings[..i]) + PhaseTotal(settings[i..])
    decreases i
  {
    if i == 0 {
      assert settings[0..] == settings;
    } else {
      TotalSplits(settings[1..], i - 1);
      assert settings[1..][..i - 1] == settings[..i][1..] && settings[1..][i - 1..] == settings[i..];
    }
  }

  lemma TotalExtends(settings: seq<Setting>, i: nat)
    requires i < |settings|
    ensures PhaseTotal(settings[..i + 1]) == PhaseTotal(settings[..i]) + Phase(settings[i])
  {
    TotalSplits(settings[..i + 1], i);
    assert settings[..i + 1][..i] == settings[..i] && settings[..i + 1][i..] == [settings[i]];
    assert [settings[i]][1..] == [];
  }

  method DeriveGracefulShutdownBudget(settings: seq<Setting>) returns (budget: Budget)
    ensures budget == DerivedBudget(settings)
  {
    hide ParseGoDuration, StartsWith;
    if settings == [] { return Refused(Unavailable); }
    var normalized: seq<Setting> := [];
    for i := 0 to |settings|
      invariant normalized == settings[..i]
      invariant forall s :: s in normalized ==> StartsWith(s.0, SETTING_PREFIX)
    {
      assert settings[i] in settings;
      if !StartsWith(settings[i].0, SETTING_PREFIX) { return Refused(Malformed); }
      normalized := normalized + [settings[i]];
    }
    assert normalized == settings;
    var total := 0.0;
    for i := 0 to |normalized|
      invariant total == PhaseTotal(settings[..i])
      invariant forall s :: s in settings[..i] ==> ParseGoDuration(s.1).Some?
    {
      var seconds := ParseGoDuration(normalized[i].1);
      if seconds.None? {
        assert settings[i] in settings;
        return Refused(UnsupportedDuration);
      }
      TotalExtends(settings, i);
      total := total + seconds.value;
    }
    assert settings[..|settings|] == settings;
    budget := Budgeted(total);
  }

  predicate ValidTimeout(timeout: real) {
    0.0 < timeout <= MAX_COMMAND_TIMEOUT
  }

  /** The bounds of every granted period, and the exact ground for refusing one. */
  lemma BudgetBounds(settings: seq<Setting>)
    ensures var b := DerivedBudget(settings);
            && (b.Granted? ==>
                  && MINIMUM <= b.grace <= MAXIMUM
                  && b.grace as real >= PhaseTotal(settings) + CUSHION as real
                  && (b.grace > MINIMUM ==> (b.grace - 1) as real < PhaseTotal(settings) + CUSHION as real)
                  && ValidTimeout((b.grace + COMMAND_CUSHION) as real))
            && (b == Refused(ExceedsCap) <==>
                  && settings != []
                  && (forall s :: s in settings ==> StartsWith(s.0, SETTING_PREFIX) && ParseGoDuration(s.1).Some?)
                  && Ceiling(PhaseTotal(settings)) + CUSHION > MAXIMUM)
  {
  }

  lemma {:induction false} TotalIgnoresOrder(a: seq<Setting>, b: seq<Setting>)
    requires multiset(a) == multiset(b)
    ensures PhaseTotal(a) == PhaseTotal(b)
    decreases |a|
  {
    if a == [] {
      assert |multiset(b)| == 0;
    } else {
      hide Phase;
      var i := WithoutCommon(a, b);
      var rest := b[..i] + b[i + 1..];
      TotalIgnoresOrder(a[1..], rest);
      TotalSplits(b, i);
      TotalSplits(rest, i);
      assert rest[..i] == b[..i] && rest[i..] == b[i + 1..] == b[i..][1..];
    }
  }

  /** The budget does not depend on the order the settings arrive in. */
  lemma BudgetIgnoresOrder(a: seq<Setting>, b: seq<Setting>)
    requires multiset(a) == multiset(b)
    ensures DerivedBudget(a) == DerivedBudget(b)
  {
    TotalIgnoresOrder(a, b);
    assert forall s :: s in a <==> s in multiset(a);
    assert forall s :: s in b <==> s in multiset(b);
    assert a == [] <==> |multiset(a)| == 0;
    assert b == [] <==> |multiset(b)| == 0;
  }

  /** Why settings are refused: none at all, a foreign name, a value that is no
      duration, in this order, or their size. */
  lemma RefusalIsExact(settings: seq<Setting>)
    ensures var b := DerivedBudget(settings);
            var foreign := exists i :: 0 <= i < |settings| && !StartsWith(settings[i].0, SETTING_PREFIX);
            var strange := exists i :: 0 <= i < |settings| && ParseGoDuration(settings[i].1).None?;
            && (b == Refused(Unavailable) <==> settings == [])
            && (b == Refused(Malformed) <==> foreign)
            && (b == Refused(UnsupportedDuration) <==> !foreign && strange)
            && (b.Granted? ==> b.phaseTotal == PhaseTotal(settings) && settings != [] && !foreign && !strange)
  {
    hide ParseGoDuration, StartsWith, PhaseTotal;
    assert forall i :: 0 <= i < |settings| ==> settings[i] in settings;
  }
}
