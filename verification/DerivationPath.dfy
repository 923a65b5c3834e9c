/**
 accounts/hd.go: parsing and printing of hierarchical deterministic derivation paths. The
 library calls it makes (split, trim, base-0 integers, decimal printing) are functions here.
 */
module DerivationPaths {
  import opened Wrappers

  const MAX_UINT32: nat := 0xFFFF_FFFF
  const HARDENED: nat := 0x8000_0000
  const DEFAULT_ROOT: seq<nat> := [HARDENED + 44, HARDENED + 60, HARDENED + 0, 0]

  datatype PathError = EmptyPath | AmbiguousPath | InvalidComponent | OutOfRange

  // ---- Splitting at slashes ----

  function Split(s: string): (parts: seq<string>)
    ensures |parts| > 0
  {
    if s == "" then [""]
    else
      var parts := Split(s[..|s| - 1]);
      if s[|s| - 1] == '/' then parts + [""]
      else parts[..|parts| - 1] + [parts[|parts| - 1] + [s[|s| - 1]]]
  }

  ghost function Join(parts: seq<string>): string
    requires |parts| > 0
  {
    if |parts| == 1 then parts[0] else Join(parts[..|parts| - 1]) + "/" + parts[|parts| - 1]
  }

  ghost predicate NoSlash(s: string) {
    forall i :: 0 <= i < |s| ==> s[i] != '/'
  }

  /** The parts make up the text again. */
  lemma {:induction false} SplitJoins(s: string)
    ensures Join(Split(s)) == s
  {
    if s != "" {
      var front, c := s[..|s| - 1], s[|s| - 1];
      var parts := Split(front);
      SplitJoins(front);
      var n := |parts| - 1;
      assert s == front + [c];
      if c == '/' {
        assert (parts + [""])[..n + 1] == parts;
      } else {
        assert Split(s)[..n] == parts[..n];
      }
    }
  }

  /** No part holds a slash. */
  lemma {:induction false} SplitParts(s: string, i: nat)
    requires i < |Split(s)|
    ensures NoSlash(Split(s)[i])
  {
    if s != "" {
      var parts := Split(s[..|s| - 1]);
      if i < |parts| {
        SplitParts(s[..|s| - 1], i);
      }
    }
  }

  lemma {:induction false} SplitAppend(s: string, t: string)
    requires NoSlash(t)
    ensures Split(s + "/" + t) == Split(s) + [t]
  {
    if t == "" {
      assert (s + "/" + t)[..|s|] == s;
    } else {
      var n := |t| - 1;
      SplitAppend(s, t[..n]);
      assert (s + "/" + t)[..|s + "/" + t| - 1] == s + "/" + t[..n];
      assert t == t[..n] + [t[n]];
    }
  }

  // ---- Trimming white space ----

  predicate IsSpace(c: char) {
    || c in {' ', '\t', '\n', '\U{000B}', '\U{000C}', '\r', '\U{0085}', '\U{00A0}', '\U{1680}'}
    || '\U{2000}' <= c <= '\U{200A}'
    || c in {'\U{2028}', '\U{2029}', '\U{202F}', '\U{205F}', '\U{3000}'}
  }

  function TrimLeft(s: string): (t: string) {
    if s != "" && IsSpace(s[0]) then TrimLeft(s[1..]) else s
  }

  function TrimRight(s: string): (t: string) {
    if s != "" && IsSpace(s[|s| - 1]) then TrimRight(s[..|s| - 1]) else s
  }

  function Trim(s: string): string {
    TrimRight(TrimLeft(s))
  }

  ghost predicate Blank(s: string) {
    forall i :: 0 <= i < |s| ==> IsSpace(s[i])
  }

  lemma {:induction false} TrimLeftPad(pad: string, s: string)
    requires Blank(pad)
    ensures TrimLeft(pad + s) == TrimLeft(s)
  {
    if pad == "" {
      assert pad + s == s;
    } else {
      TrimLeftPad(pad[1..], s);
      assert (pad + s)[1..] == pad[1..] + s;
    }
  }

  lemma {:induction false} TrimRightPad(s: string, pad: string)
    requires Blank(pad)
    ensures TrimRight(s + pad) == TrimRight(s)
  {
    if pad == "" {
      assert s + pad == s;
    } else {
      TrimRightPad(s, pad[..|pad| - 1]);
      assert (s + pad)[..|s + pad| - 1] == s + pad[..|pad| - 1];
    }
  }

  lemma {:induction false} TrimLeftAppend(s: string, pad: string)
    requires Blank(pad)
    ensures Blank(s) ==> TrimLeft(s + pad) == ""
    ensures !Blank(s) ==> TrimLeft(s + pad) == TrimLeft(s) + pad
    decreases |s| + |pad|
  {
    if s == "" {
      assert s + pad == pad;
      if pad != "" {
        assert pad[1..] + "" == pad[1..];
        TrimLeftAppend(pad[1..], "");
      }
    } else if IsSpace(s[0]) {
      assert (s + pad)[1..] == s[1..] + pad;
      TrimLeftAppend(s[1..], pad);
      assert Blank(s) <==> Blank(s[1..]);
    }
  }

  /** White space around a text does not change what is left of it. */
  lemma TrimPadded(before: string, s: string, after: string)
    requires Blank(before) && Blank(after)
    ensures Trim(before + s + after) == Trim(s)
  {
    assert before + s + after == before + (s + after);
    TrimLeftPad(before, s + after);
    TrimLeftAppend(s, after);
    if Blank(s) {
      TrimLeftAppend(s, "");
      assert s + "" == s;
    } else {
      TrimRightPad(TrimLeft(s), after);
    }
  }

  /** A text that neither starts nor ends with white space is left alone. */
  lemma TrimTight(s: string)
    requires s != "" ==> !IsSpace(s[0]) && !IsSpace(s[|s| - 1])
    ensures Trim(s) == s
  {
  }

  // ---- Base-0 integers ----

  /** The value of a digit or letter; 63 for anything that is neither. */
  function DigitOf(c: char): nat {
    if '0' <= c <= '9' then (c - '0') as nat
    else if 'a' <= c <= 'z' then (c - 'a') as nat + 10
    else if 'A' <= c <= 'Z' then (c - 'A') as nat + 10
    else 63
  }

  /**
   Digits of the base with single underscores between them; one may also come first, after a
   base prefix.
   */
  predicate WellFormed(s: string, base: nat, prefixed: bool) {
    && s != "" && s[|s| - 1] != '_' && (s[0] == '_' ==> prefixed)
    && forall i :: 0 <= i < |s| ==> WellPlaced(s, i, base)
  }

  predicate WellPlaced(s: string, i: nat, base: nat)
    requires i < |s|
  {
    if s[i] == '_' then i + 1 < |s| && s[i + 1] != '_' else DigitOf(s[i]) < base
  }

  function Value(s: string, base: nat): nat {
    if s == "" then 0
    else
      var front, c := s[..|s| - 1], s[|s| - 1];
      if c == '_' then Value(front, base) else Value(front, base) * base + DigitOf(c)
  }

  function ScanDigits(s: string, base: nat, prefixed: bool): Option<nat> {
    if WellFormed(s, base, prefixed) then Some(Value(s, base)) else None
  }

  /** An unsigned number: decimal, or with the prefix of base 2, 8 or 16; a bare 0 before digits is octal. */
  function ParseNat(s: string): Option<nat> {
    if |s| < 2 || s[0] != '0' then ScanDigits(s, 10, false)
    else if s[1] == 'b' || s[1] == 'B' then ScanDigits(s[2..], 2, true)
    else if s[1] == 'o' || s[1] == 'O' then ScanDigits(s[2..], 8, true)
    else if s[1] == 'x' || s[1] == 'X' then ScanDigits(s[2..], 16, true)
    else ScanDigits(s[1..], 8, true)
  }

  function ParseInt(s: string): Option<int> {
    if s != "" && (s[0] == '-' || s[0] == '+') then
      match ParseNat(s[1..])
      case None => None
      case Some(n) =>
        if s[0] == '-' then Some(-(n as int)) else Some(n)
    else ParseNat(s)
  }

  // ---- Printing numbers ----

  const DIGITS: string := "0123456789abcdef"

  predicate Radix(base: nat) {
    base == 2 || base == 8 || base == 10 || base == 16
  }

  lemma Shrinks(n: nat, base: nat)
    requires Radix(base) && base <= n
    ensures 0 < n / base < n && n == n / base * base + n % base
  {
    if base == 2 {
      assert n == n / 2 * 2 + n % 2;
    } else if base == 8 {
      assert n == n / 8 * 8 + n % 8;
    } else if base == 10 {
      assert n == n / 10 * 10 + n % 10;
    } else {
      assert n == n / 16 * 16 + n % 16;
    }
  }

  function ToBase(n: nat, base: nat): (s: string)
    requires Radix(base)
    ensures s != ""
    decreases n
  {
    if n >= base then Shrinks(n, base); ToBase(n / base, base) + [DIGITS[n % base]] else [DIGITS[n]]
  }

  lemma DigitRead(d: nat)
    requires d < 16
    ensures DigitOf(DIGITS[d]) == d && DIGITS[d] != '_' && DIGITS[d] != '/' && DIGITS[d] != '\''
    ensures !IsSpace(DIGITS[d]) && DIGITS[d] != '+' && DIGITS[d] != '-'
    ensures DIGITS[d] == '0' <==> d == 0
  {
  }

  ghost predicate DigitsOnly(s: string, base: nat)
    requires base <= 16
  {
    forall i :: 0 <= i < |s| ==> exists d: nat :: d < base && s[i] == DIGITS[d]
  }

  lemma {:induction false} ToBaseReads(n: nat, base: nat)
    requires Radix(base)
    ensures Value(ToBase(n, base), base) == n && DigitsOnly(ToBase(n, base), base)
    ensures if n == 0 then ToBase(n, base) == "0" else ToBase(n, base)[0] != '0'
    decreases n
  {
    var s := ToBase(n, base);
    if n < base {
      DigitRead(n);
      assert s[..0] == "";
    } else {
      var d := n % base;
      Shrinks(n, base);
      ToBaseReads(n / base, base);
      DigitRead(d);
      assert s[..|s| - 1] == ToBase(n / base, base);
    }
  }

  /** Digits of a base scan as its digits. */
  lemma ScansBack(n: nat, base: nat, prefixed: bool)
    requires Radix(base)
    ensures ScanDigits(ToBase(n, base), base, prefixed) == Some(n)
  {
    var s := ToBase(n, base);
    ToBaseReads(n, base);
    forall i | 0 <= i < |s|
      ensures s[i] != '_' && DigitOf(s[i]) < base
    {
      var d: nat :| d < base && s[i] == DIGITS[d];
      DigitRead(d);
    }
  }

  function Prefix(base: nat): string {
    if base == 2 then "0b" else if base == 8 then "0o" else if base == 16 then "0x" else ""
  }

  /** A number printed in any of the four bases, with its prefix, parses back. */
  lemma ParsesBack(n: nat, base: nat)
    requires Radix(base)
    ensures ParseInt(Prefix(base) + ToBase(n, base)) == Some(n)
  {
    hide ToBase, Value, WellFormed, ScanDigits;
    var digits := ToBase(n, base);
    var s := Prefix(base) + digits;
    ScansBack(n, base, base != 10);
    if base == 10 {
      assert s == digits;
      ToBaseReads(n, 10);
      var d: nat :| d < 10 && digits[0] == DIGITS[d];
      DigitRead(d);
    } else {
      assert s[2..] == digits;
    }
  }

  // ---- Components ----

  /** A trailing apostrophe hardens; what is before it must be a number in the range left for it. */
  function ParseComponent(text: string): (r: Result<nat, PathError>)
    ensures r.Ok? ==> r.value <= MAX_UINT32
  {
    var t := Trim(text);
    var hardened := t != "" && t[|t| - 1] == '\'';
    var body := if hardened then Trim(t[..|t| - 1]) else t;
    var offset := if hardened then HARDENED else 0;
    match ParseInt(body)
    case None => Err(InvalidComponent)
    case Some(v) => if v < 0 || v > MAX_UINT32 - offset then Err(OutOfRange) else Ok(offset + v)
  }

  function Component(c: nat): string {
    if c >= HARDENED then ToBase(c - HARDENED, 10) + "'" else ToBase(c, 10)
  }

  lemma DecimalTight(n: nat)
    ensures var s := ToBase(n, 10); NoSlash(s) && Trim(s) == s && s[|s| - 1] != '\''
    ensures var s := ToBase(n, 10); !IsSpace(s[0]) && !IsSpace(s[|s| - 1])
  {
    var s := ToBase(n, 10);
    ToBaseReads(n, 10);
    forall i | 0 <= i < |s|
      ensures s[i] != '/' && !IsSpace(s[i]) && s[i] != '\''
    {
      var d: nat :| d < 10 && s[i] == DIGITS[d];
      DigitRead(d);
    }
    TrimTight(s);
  }

  /** Every 32-bit component parses back from its printed form, hardened or not. */
  lemma ComponentParsesBack(c: nat)
    requires c <= MAX_UINT32
    ensures ParseComponent(Component(c)) == Ok(c) && NoSlash(Component(c))
  {
    hide ToBase, ParseInt, TrimLeft, TrimRight;
    var text := Component(c);
    var n := if c >= HARDENED then c - HARDENED else c;
    var digits := ToBase(n, 10);
    DecimalTight(n);
    ParsesBack(n, 10);
    assert Prefix(10) + digits == digits;
    if c >= HARDENED {
      TrimTight(text);
      assert text[..|text| - 1] == digits;
    }
  }

  /** A decimal number is taken exactly up to the last 32-bit one, or with an apostrophe the last 31-bit one. */
  lemma ComponentRange(n: nat)
    ensures ParseComponent(ToBase(n, 10)) == if n <= 4294967295 then Ok(n) else Err(OutOfRange)
    ensures ParseComponent(ToBase(n, 10) + "'") == if n <= 2147483647 then Ok(2147483648 + n) else Err(OutOfRange)
  {
    hide ToBase, ParseInt, TrimLeft, TrimRight;
    var digits := ToBase(n, 10);
    var text := digits + "'";
    DecimalTight(n);
    ParsesBack(n, 10);
    assert Prefix(10) + digits == digits;
    TrimTight(text);
    assert text[..|text| - 1] == digits;
  }

  /** A negative number is out of range. */
  lemma ComponentNegative(n: nat)
    requires n > 0
    ensures ParseComponent("-" + ToBase(n, 10)) == Err(OutOfRange)
  {
    hide ToBase, ParseNat, TrimLeft, TrimRight;
    var digits := ToBase(n, 10);
    var text := "-" + digits;
    DecimalTight(n);
    NatParsesBack(n);
    TrimTight(text);
    assert text[1..] == digits && text[|text| - 1] == digits[|digits| - 1];
  }

  lemma NatParsesBack(n: nat)
    ensures ParseNat(ToBase(n, 10)) == Some(n)
  {
    hide ToBase, Value, WellFormed, ScanDigits;
    ScansBack(n, 10, false);
    ToBaseReads(n, 10);
  }

  // ---- Paths ----

  ghost function ParseAll(components: seq<string>): (r: Result<seq<nat>, PathError>)
    ensures r.Ok? ==> |r.value| == |components| && Uint32s(r.value)
  {
    if components == [] then Ok([])
    else
      var n := |components| - 1;
      var front := ParseAll(components[..n]);
      if front.Err? then front
      else
        var last := ParseComponent(components[n]);
        if last.Err? then Err(last.error) else Ok(front.value + [last.value])
  }

  ghost predicate Uint32s(path: seq<nat>) {
    forall i :: 0 <= i < |path| ==> path[i] <= MAX_UINT32
  }

  /** An absolute path starts at m, a relative one at the default root. */
  ghost function Parse(text: string): Result<seq<nat>, PathError> {
    var components := Split(text);
    var first := Trim(components[0]);
    if first == "" then Err(AmbiguousPath)
    else if first == "m" then
      if |components| == 1 then Err(EmptyPath) else ParseAll(components[1..])
    else
      var rest := ParseAll(components);
      if rest.Err? then rest else Ok(DEFAULT_ROOT + rest.value)
  }

  method ParseDerivationPath(text: string) returns (r: Result<seq<nat>, PathError>)
    ensures r == Parse(text)
  {
    hide ParseComponent, Trim, Split;
    var result: seq<nat> := [];
    var components := Split(text);
    var first := Trim(components[0]);
    if first == "" {
      return Err(AmbiguousPath);
    } else if first == "m" {
      components := components[1..];
    } else {
      result := DEFAULT_ROOT;
    }
    if |components| == 0 {
      return Err(EmptyPath);
    }
    ghost var base := result;
    for i := 0 to |components|
      invariant ParseAll(components[..i]).Ok? && result == base + ParseAll(components[..i]).value
    {
      assert components[..i + 1][..i] == components[..i];
      var value := ParseComponent(components[i]);
      if value.Err? {
        ParseFails(components, i + 1);
        return Err(value.error);
      }
      result := result + [value.value];
    }
    assert components[..|components|] == components;
    assert base == [] ==> result == ParseAll(components).value;
    return Ok(result);
  }

  /** The first component that fails decides. */
  lemma {:induction false} ParseFails(components: seq<string>, n: nat)
    requires n <= |components| && ParseAll(components[..n]).Err?
    ensures ParseAll(components) == ParseAll(components[..n])
  {
    if n == |components| {
      assert components[..n] == components;
    } else {
      var m := |components| - 1;
      assert components[..m][..n] == components[..n];
      ParseFails(components[..m], n);
    }
  }

  ghost function Print(path: seq<nat>): string {
    if path == [] then "m" else Print(path[..|path| - 1]) + "/" + Component(path[|path| - 1])
  }

  method String(path: seq<nat>) returns (result: string)
    requires Uint32s(path)
    ensures result == Print(path)
  {
    hide ToBase;
    result := "m";
    for i := 0 to |path|
      invariant result == Print(path[..i])
    {
      assert path[..i + 1][..i] == path[..i];
      var component, hardened := path[i], false;
      if component >= HARDENED {
        component, hardened := component - HARDENED, true;
      }
      ghost var before := result;
      result := result + "/" + ToBase(component, 10);
      if hardened {
        result := result + "'";
        assert result == before + "/" + Component(path[i]);
      }
    }
    assert path[..|path|] == path;
  }

  ghost function Components(path: seq<nat>): seq<string> {
    seq(|path|, i requires 0 <= i < |path| => Component(path[i]))
  }

  lemma SplitsM()
    ensures Split("m") == ["m"]
  {
    var m := "m";
    assert m[..0] == "" && m[0] == 'm';
    assert "" + [m[0]] == m;
    assert Split(m) == [""][..0] + ["" + [m[0]]] == [m];
  }

  lemma {:induction false} PrintSplits(path: seq<nat>)
    requires Uint32s(path)
    ensures Split(Print(path)) == ["m"] + Components(path)
  {
    hide Split, Component, ParseComponent;
    if path == [] {
      SplitsM();
    } else {
      var n := |path| - 1;
      PrintSplits(path[..n]);
      ComponentParsesBack(path[n]);
      SplitAppend(Print(path[..n]), Component(path[n]));
      assert Components(path) == Components(path[..n]) + [Component(path[n])];
    }
  }

  lemma {:induction false} ComponentsParse(path: seq<nat>)
    requires Uint32s(path)
    ensures ParseAll(Components(path)) == Ok(path)
  {
    hide ParseComponent, Component;
    if path != [] {
      var n := |path| - 1;
      ComponentsParse(path[..n]);
      ComponentParsesBack(path[n]);
      assert Components(path)[..n] == Components(path[..n]);
      assert path == path[..n] + [path[n]];
    }
  }

  /** A path parses back from its printed form exactly if it is not empty. */
  lemma RoundTrip(path: seq<nat>)
    requires Uint32s(path)
    ensures Parse(Print(path)) == if path == [] then Err(EmptyPath) else Ok(path)
  {
    hide Split, ParseAll, Print;
    PrintSplits(path);
    ComponentsParse(path);
    assert (["m"] + Components(path))[1..] == Components(path);
    assert Trim("m") == "m";
  }

  /** Whatever text a path was parsed from, printing it and parsing again gives the same path. */
  lemma Reprint(text: string)
    requires Parse(text).Ok?
    ensures Uint32s(Parse(text).value) && Parse(Print(Parse(text).value)) == Parse(text)
  {
    hide Split, Print, Trim;
    var components := Split(text);
    assert |components| > 1 ==> |components[1..]| > 0;
    RoundTrip(Parse(text).value);
  }

  // ---- White space ----

  /** White space around a component is ignored. */
  lemma PaddedComponent(before: string, text: string, after: string)
    requires Blank(before) && Blank(after)
    ensures ParseComponent(before + text + after) == ParseComponent(text)
  {
    TrimPadded(before, text, after);
  }

  ghost predicate Spaceless(s: string) {
    forall i :: 0 <= i < |s| ==> !IsSpace(s[i])
  }

  lemma DigitsSpaceless(s: string, base: nat, prefixed: bool)
    requires base <= 16 && ScanDigits(s, base, prefixed).Some?
    ensures Spaceless(s)
  {
    forall i | 0 <= i < |s|
      ensures !IsSpace(s[i])
    {
      assert WellPlaced(s, i, base);
    }
  }

  /** No number holds white space. */
  lemma NumberSpaceless(s: string)
    requires ParseInt(s).Some?
    ensures Spaceless(s)
  {
    hide ScanDigits;
    var signed := s != "" && (s[0] == '-' || s[0] == '+');
    var n := if signed then s[1..] else s;
    NatSpaceless(n);
    assert forall i :: 0 <= i < |n| ==> n[i] == s[if signed then i + 1 else i];
    forall i | 0 <= i < |s|
      ensures !IsSpace(s[i])
    {
      if signed && i > 0 {
        assert s[i] == n[i - 1];
      }
    }
  }

  lemma NatSpaceless(s: string)
    requires ParseNat(s).Some?
    ensures Spaceless(s)
  {
    hide ScanDigits;
    if |s| < 2 || s[0] != '0' {
      DigitsSpaceless(s, 10, false);
    } else {
      var k := if s[1] in {'b', 'B', 'o', 'O', 'x', 'X'} then 2 else 1;
      var base := if s[1] in {'b', 'B'} then 2 else if s[1] in {'x', 'X'} then 16 else 8;
      DigitsSpaceless(s[k..], base, true);
      forall i | 0 <= i < |s|
        ensures !IsSpace(s[i])
      {
        if i >= k {
          assert s[k..][i - k] == s[i];
        }
      }
    }
  }

  lemma {:induction false} TrimLeftKeeps(s: string, t: string)
    requires !Blank(s)
    ensures TrimLeft(s + t) == TrimLeft(s) + t && TrimLeft(s) != "" && !IsSpace(TrimLeft(s)[0])
  {
    if IsSpace(s[0]) {
      assert (s + t)[1..] == s[1..] + t;
      TrimLeftKeeps(s[1..], t);
    }
  }

  lemma {:induction false} TrimRightKeeps(s: string, t: string)
    requires !Blank(t)
    ensures TrimRight(s + t) == s + TrimRight(t) && TrimRight(t) != "" && !IsSpace(TrimRight(t)[|TrimRight(t)| - 1])
  {
    if IsSpace(t[|t| - 1]) {
      assert (s + t)[..|s + t| - 1] == s + t[..|t| - 1];
      TrimRightKeeps(s, t[..|t| - 1]);
    }
  }

  /** Trimming cuts the front of the first and the back of the second of two texts. */
  lemma TrimBetween(s: string, mid: string, t: string)
    requires !Blank(s) && !Blank(t)
    ensures Trim(s + mid + t) == TrimLeft(s) + mid + TrimRight(t)
  {
    assert s + mid + t == s + (mid + t);
    TrimLeftKeeps(s, mid + t);
    assert TrimLeft(s) + (mid + t) == (TrimLeft(s) + mid) + t;
    TrimRightKeeps(TrimLeft(s) + mid, t);
  }

  /** A number cannot be split by white space. */
  lemma SplitNumber(s: string, pad: string, t: string)
    requires !Blank(s) && !Blank(t) && Blank(pad) && pad != ""
    ensures ParseInt(Trim(s + pad + t)).None?
  {
    hide ParseInt, TrimLeft, TrimRight;
    TrimBetween(s, pad, t);
    var u := Trim(s + pad + t);
    assert u[|TrimLeft(s)|] == pad[0];
    if ParseInt(u).Some? {
      NumberSpaceless(u);
    }
  }

  ghost predicate Hardened(t: string) {
    t != "" && t[|t| - 1] == '\''
  }

  /** White space with something before it, and more than the apostrophe after it, splits the number. */
  lemma SplitComponent(s: string, pad: string, t: string)
    requires !Blank(s) && !Blank(t) && Trim(t) != "'" && Blank(pad) && pad != ""
    ensures ParseComponent(s + pad + t) == Err(InvalidComponent)
  {
    hide ParseInt, TrimLeft, TrimRight;
    TrimBetween(s, pad, t);
    TrimRightKeeps("", t);
    assert "" + t == t;
    var l, r := TrimLeft(s), TrimRight(t);
    var u := Trim(s + pad + t);
    assert u == l + pad + r;
    if Hardened(r) {
      var r' := r[..|r| - 1];
      assert u[..|u| - 1] == l + pad + r';
      if Blank(r') {
        ApostropheOnly(t);
      }
      TrimLeftKeeps(s, "");
      assert s + "" == s && !Blank(l);
      SplitNumber(l, pad, r');
    } else {
      SplitNumber(s, pad, t);
    }
  }

  /** A text that ends in an apostrophe with only white space before it trims to the apostrophe. */
  lemma ApostropheOnly(t: string)
    requires Hardened(TrimRight(t)) && Blank(TrimRight(t)[..|TrimRight(t)| - 1])
    ensures Trim(t) == "'"
  {
    var r := TrimRight(t);
    var lead := r[..|r| - 1];
    var after := BlankRest(t);
    assert t == lead + "'" + after;
    TrimPadded(lead, "'", after);
    TrimTight("'");
  }

  lemma {:induction false} BlankRest(t: string) returns (rest: string)
    ensures Blank(rest) && t == TrimRight(t) + rest
  {
    hide IsSpace;
    if t != "" && IsSpace(t[|t| - 1]) {
      rest := BlankRest(t[..|t| - 1]);
      rest := rest + [t[|t| - 1]];
    } else {
      rest := "";
    }
  }

  lemma {:induction false} BlankFront(t: string) returns (front: string)
    ensures Blank(front) && t == front + TrimLeft(t)
  {
    hide IsSpace;
    if t != "" && IsSpace(t[0]) {
      front := BlankFront(t[1..]);
      front := [t[0]] + front;
      assert t == [t[0]] + t[1..];
    } else {
      front := "";
    }
  }

  /** White space before the apostrophe goes with the number's own padding. */
  lemma HardenedBody(s: string, pad: string, t: string)
    requires !Blank(s) && Blank(pad) && Trim(t) == "'"
    ensures var u := Trim(s + pad + t);
            Hardened(u) && Trim(u[..|u| - 1]) == Trim(s)
  {
    hide TrimLeft, TrimRight;
    var lead := BlankFront(t);
    var after := BlankRest(TrimLeft(t));
    var gap := pad + lead;
    assert s + pad + t == "" + (s + gap + "'") + after;
    TrimPadded("", s + gap + "'", after);
    assert !Blank("'") by { assert !IsSpace("'"[0]); }
    TrimBetween(s, gap, "'");
    TrimTight("'");
    ApostropheTight();
    var l := TrimLeft(s);
    var u := l + gap + "'";
    assert u[..|u| - 1] == "" + l + gap;
    TrimPadded("", l, gap);
    var front := BlankFront(s);
    assert s == front + l + "";
    TrimPadded(front, l, "");
  }

  lemma ApostropheTight()
    ensures TrimRight("'") == "'"
  {
  }

  /** At either end of the component, or before the apostrophe, white space is ignored. */
  lemma HarmlessGap(s: string, pad: string, t: string)
    requires Blank(pad) && (Blank(s) || Blank(t) || Trim(t) == "'")
    ensures ParseComponent(s + pad + t) == ParseComponent(s + t)
  {
    hide ParseInt, Trim;
    if Blank(s) {
      assert s + pad + t == (s + pad) + t + "" && s + t == s + t + "";
      PaddedComponent(s + pad, t, "");
      PaddedComponent(s, t, "");
    } else if Blank(t) {
      assert s + pad + t == "" + s + (pad + t) && s + t == "" + s + t;
      PaddedComponent("", s, pad + t);
      PaddedComponent("", s, t);
    } else {
      HardenedBody(s, pad, t);
      HardenedBody(s, "", t);
      assert s + "" + t == s + t;
    }
  }

  /**
   White space put into a component that parses is ignored exactly at its ends and before its
   apostrophe; anywhere else it splits the number.
   */
  lemma ComponentGapIff(s: string, pad: string, t: string)
    requires Blank(pad) && pad != "" && ParseComponent(s + t).Ok?
    ensures ParseComponent(s + pad + t) == ParseComponent(s + t) <==> Blank(s) || Blank(t) || Trim(t) == "'"
  {
    hide ParseComponent, Trim;
    if Blank(s) || Blank(t) || Trim(t) == "'" {
      HarmlessGap(s, pad, t);
    } else {
      SplitComponent(s, pad, t);
    }
  }

  // ---- White space in whole paths ----

  lemma {:induction false} SplitWhole(t: string)
    requires NoSlash(t)
    ensures Split(t) == [t]
  {
    if t != "" {
      SplitWhole(t[..|t| - 1]);
      assert t == t[..|t| - 1] + [t[|t| - 1]];
    }
  }

  /** Splitting two texts put together joins the last part of one and the first of the other. */
  ghost function Glue(a: seq<string>, b: seq<string>): seq<string>
    requires |a| > 0 && |b| > 0
  {
    a[..|a| - 1] + [a[|a| - 1] + b[0]] + b[1..]
  }

  lemma GlueEmpty(a: seq<string>)
    requires |a| > 0
    ensures Glue(a, [""]) == a
  {
    assert a[|a| - 1] + "" == a[|a| - 1];
  }

  lemma {:induction false} SplitGlues(u: string, v: string)
    ensures Split(u + v) == Glue(Split(u), Split(v))
  {
    hide Split, Glue;
    SplitNone();
    if v == "" {
      assert u + v == u;
      GlueEmpty(Split(u));
    } else {
      var n := |v| - 1;
      SplitGlues(u, v[..n]);
      assert u + v == (u + v[..n]) + [v[n]] && v == v[..n] + [v[n]];
      SplitSnoc(u + v[..n], v[n]);
      SplitSnoc(v[..n], v[n]);
      GlueSnoc(Split(u), Split(v[..n]), v[n]);
    }
  }

  lemma SplitNone()
    ensures Split("") == [""]
  {
  }

  /** Splitting a text with one more character. */
  lemma SplitSnoc(s: string, c: char)
    ensures var parts := Split(s);
            Split(s + [c]) == if c == '/' then parts + [""] else parts[..|parts| - 1] + [parts[|parts| - 1] + [c]]
  {
    assert (s + [c])[..|s|] == s;
  }

  /** One more character at the end of the second text. */
  lemma GlueSnoc(a: seq<string>, b: seq<string>, c: char)
    requires |a| > 0 && |b| > 0
    ensures var g := Glue(a, b);
            && Glue(a, b + [""]) == g + [""]
            && Glue(a, b[..|b| - 1] + [b[|b| - 1] + [c]]) == g[..|g| - 1] + [g[|g| - 1] + [c]]
  {
    var g, last := Glue(a, b), b[..|b| - 1] + [b[|b| - 1] + [c]];
    assert Glue(a, b + [""]) == g + [""];
    if |b| == 1 {
      assert a[|a| - 1] + (b[0] + [c]) == (a[|a| - 1] + b[0]) + [c];
      assert last[0] == b[0] + [c];
    }
    assert Glue(a, last) == g[..|g| - 1] + [g[|g| - 1] + [c]];
  }

  /** Text put in between two others goes into the component where they meet. */
  lemma SplitInsert(u: string, pad: string, v: string)
    requires NoSlash(pad)
    ensures var a, b := Split(u), Split(v);
            && Split(u + v) == Glue(a, b) && |Glue(a, b)| >= |a|
            && Split(u + pad + v) == Glue(a, b)[|a| - 1 := a[|a| - 1] + pad + b[0]]
  {
    hide Split, Glue;
    var a, b := Split(u), Split(v);
    SplitGlues(u, v);
    SplitGlues(u + pad, v);
    SplitGlues(u, pad);
    SplitWhole(pad);
    GlueInsert(a, pad, b);
  }

  lemma GlueInsert(a: seq<string>, pad: string, b: seq<string>)
    requires |a| > 0 && |b| > 0
    ensures |Glue(a, b)| >= |a| && |Glue(a, [pad])| == |a|
    ensures Glue(Glue(a, [pad]), b) == Glue(a, b)[|a| - 1 := a[|a| - 1] + pad + b[0]]
  {
    assert Glue(a, [pad]) == a[..|a| - 1] + [a[|a| - 1] + pad];
  }

  /** A component read the same leaves the path the same; one that fails makes it fail. */
  lemma {:induction false} ParseReplaced(cs: seq<string>, i: nat, c: string)
    requires i < |cs|
    ensures ParseComponent(c) == ParseComponent(cs[i]) ==> ParseAll(cs[i := c]) == ParseAll(cs)
    ensures ParseComponent(c).Err? ==> ParseAll(cs[i := c]).Err?
  {
    hide ParseComponent;
    var n := |cs| - 1;
    if i < n {
      ParseReplaced(cs[..n], i, c);
      assert cs[i := c][..n] == cs[..n][i := c];
    } else {
      assert cs[i := c][..n] == cs[..n];
    }
  }

  // ---- Relative paths ----

  lemma {:induction false} ParseConcat(a: seq<string>, b: seq<string>)
    requires ParseAll(a).Ok?
    ensures ParseAll(a + b) ==
            if ParseAll(b).Err? then ParseAll(b) else Ok(ParseAll(a).value + ParseAll(b).value)
    decreases |b|
  {
    hide ParseComponent;
    if b == [] {
      assert a + b == a && ParseAll(a).value + [] == ParseAll(a).value;
    } else {
      var n := |b| - 1;
      ParseConcat(a, b[..n]);
      assert (a + b)[..|a + b| - 1] == a + b[..n];
      if ParseAll(b).Ok? {
        var front, last := ParseAll(b[..n]).value, ParseComponent(b[n]).value;
        assert ParseAll(a).value + (front + [last]) == ParseAll(a).value + front + [last];
      }
    }
  }

  lemma PrintSnoc(path: seq<nat>, c: nat)
    ensures Print(path + [c]) == Print(path) + "/" + Component(c)
  {
    assert (path + [c])[..|path|] == path;
  }

  lemma RootComponents()
    ensures Component(HARDENED + 44) == "44'" && Component(HARDENED + 60) == "60'"
    ensures Component(HARDENED + 0) == "0'" && Component(0) == "0"
  {
    assert ToBase(44, 10) == "44" && ToBase(60, 10) == "60" && ToBase(0, 10) == "0";
  }

  lemma RootPrints()
    ensures Print(DEFAULT_ROOT) == "m/44'/60'/0'/0"
  {
    hide Component;
    RootComponents();
    PrintSnoc([], HARDENED + 44);
    PrintSnoc([] + [HARDENED + 44], HARDENED + 60);
    PrintSnoc([] + [HARDENED + 44] + [HARDENED + 60], HARDENED + 0);
    PrintSnoc([] + [HARDENED + 44] + [HARDENED + 60] + [HARDENED + 0], 0);
    assert DEFAULT_ROOT == [] + [HARDENED + 44] + [HARDENED + 60] + [HARDENED + 0] + [0];
    assert Print([]) == "m";
  }

  lemma SplitUnder(s: string, t: string)
    ensures Split(s + "/" + t) == Split(s) + Split(t)
  {
    hide Split, Glue;
    SplitSnoc(s, '/');
    SplitGlues(s + "/", t);
    GlueRest(Split(s), Split(t));
  }

  /** Components put after a printed path are parsed after it. */
  lemma ParseUnder(path: seq<nat>, text: string)
    requires Uint32s(path)
    ensures Parse(Print(path) + "/" + text) ==
            if ParseAll(Split(text)).Err? then ParseAll(Split(text)) else Ok(path + ParseAll(Split(text)).value)
  {
    hide Split, Print, ParseAll;
    SplitUnder(Print(path), text);
    PrintSplits(path);
    ComponentsParse(path);
    ParseConcat(Components(path), Split(text));
    assert (["m"] + Components(path) + Split(text))[1..] == Components(path) + Split(text);
    assert Trim("m") == "m";
  }

  /** A relative path is the path under the default root. */
  lemma RelativeIsAbsolute(text: string)
    requires Trim(Split(text)[0]) != "" && Trim(Split(text)[0]) != "m"
    ensures Parse(text) == Parse("m/44'/60'/0'/0/" + text)
  {
    hide Split, Print, ParseAll, Trim;
    RootPrints();
    ParseUnder(DEFAULT_ROOT, text);
    assert "m/44'/60'/0'/0/" == Print(DEFAULT_ROOT) + "/";
  }

  lemma GlueRest(a: seq<string>, b: seq<string>)
    requires |b| > 0
    ensures Glue(a + [""], b) == a + b
  {
    assert "" + b[0] == b[0] && [b[0]] + b[1..] == b;
  }

  lemma BlankNoSlash(pad: string)
    requires Blank(pad)
    ensures NoSlash(pad)
  {
  }

  /** What a gap makes of the first component, which is also looked at for the prefix. */
  lemma FirstGap(s: string, pad: string, t: string)
    requires Blank(pad) && Trim(s + t) != ""
    ensures Trim(s + pad + t) != ""
    ensures Trim(s + pad + t) == "m" <==> Trim(s + t) == "m" && (Blank(s) || Blank(t) || pad == "")
    ensures Trim(s + t) == "m" ==> Blank(s) || Blank(t)
  {
    hide TrimLeft, TrimRight;
    if Blank(s) {
      assert s + pad + t == (s + pad) + t + "" && s + t == s + t + "";
      TrimPadded(s + pad, t, "");
      TrimPadded(s, t, "");
    } else if Blank(t) {
      assert s + pad + t == "" + s + (pad + t) && s + t == "" + s + t;
      TrimPadded("", s, pad + t);
      TrimPadded("", s, t);
    } else {
      TrimBetween(s, pad, t);
      TrimBetween(s, "", t);
      assert s + "" + t == s + t;
      TrimLeftKeeps(s, "");
      TrimRightKeeps("", t);
      assert s + "" == s && "" + t == t;
    }
  }

  /**
   White space put anywhere into a path that parses is ignored exactly if it is at an end of
   its component or before the component's apostrophe.
   */
  lemma GapIff(u: string, pad: string, v: string)
    requires Blank(pad) && pad != "" && Parse(u + v).Ok?
    ensures var s, t := Split(u)[|Split(u)| - 1], Split(v)[0];
            Parse(u + pad + v) == Parse(u + v) <==> Blank(s) || Blank(t) || Trim(t) == "'"
  {
    hide Split, Trim, ParseComponent, ParseAll;
    BlankNoSlash(pad);
    SplitInsert(u, pad, v);
    var a, b := Split(u), Split(v);
    var i := |a| - 1;
    var s, t := a[i], b[0];
    var cs := Glue(a, b);
    var c := s + pad + t;
    assert cs[i] == s + t;
    if i == 0 {
      FirstGap(s, pad, t);
    }
    if i == 0 && Trim(cs[0]) == "m" {
      assert cs[i := c][1..] == cs[1..];
    } else {
      ComponentParsed(cs, i);
      ComponentGapIff(s, pad, t);
      if Trim(cs[0]) == "m" {
        ParseReplaced(cs[1..], i - 1, c);
        assert cs[i := c][1..] == cs[1..][i - 1 := c];
      } else {
        ParseReplaced(cs, i, c);
      }
      if !(Blank(s) || Blank(t) || Trim(t) == "'") {
        SplitComponent(s, pad, t);
      }
    }
  }

  /** Every component of a path that parses, but for the prefix, parses. */
  lemma ComponentParsed(cs: seq<string>, i: nat)
    requires |cs| > 0 && i < |cs| && (i == 0 ==> Trim(cs[0]) != "m")
    requires if Trim(cs[0]) == "m" then ParseAll(cs[1..]).Ok? else ParseAll(cs).Ok?
    ensures ParseComponent(cs[i]).Ok?
  {
    hide ParseComponent, Trim;
    if Trim(cs[0]) == "m" {
      EachParsed(cs[1..], i - 1);
    } else {
      EachParsed(cs, i);
    }
  }

  lemma {:induction false} EachParsed(cs: seq<string>, i: nat)
    requires i < |cs| && ParseAll(cs).Ok?
    ensures ParseComponent(cs[i]).Ok?
  {
    hide ParseComponent;
    var n := |cs| - 1;
    if i < n {
      EachParsed(cs[..n], i);
    }
  }

  /** For instance, a space inside a number. */
  lemma SpaceInsideNumber()
    ensures ParseComponent("44") == Ok(44) && ParseComponent("4 4") != ParseComponent("44")
  {
    assert ToBase(44, 10) == "44" by {
      assert ToBase(4, 10) == "4";
    }
    ComponentParsesBack(44);
    assert "4" + "4" == "44" && "4" + " " + "4" == "4 4";
    FourTight();
    ComponentGapIff("4", " ", "4");
  }

  lemma FourTight()
    ensures !Blank("4") && Blank(" ") && Trim("4") == "4"
  {
    assert !IsSpace("4"[0]);
    TrimTight("4");
  }
}
