/** Symbol names: how types and signatures are encoded, and what the demangler's parsers
    read.  A C string is the text before its terminating null character. */
module Mangling {

  const NUL := '\0'

  /** The outcome of a parser: the text and the position behind it, no match, or a read past
      the end of the string. */
  datatype Res = Ok(text: string, next: nat) | Fail | Overrun

  function At(s: string, i: nat): char {
    if i < |s| then s[i] else NUL
  }

  predicate IsAlpha(c: char) {
    'a' <= c <= 'z' || 'A' <= c <= 'Z'
  }

  predicate IsDigit(c: char) {
    '0' <= c <= '9'
  }

  // ------------------------------------------------------- types and how they are written

  datatype Ty = Int | Bool | Record(name: string) | Array(elem: Ty) | Tuple(comps: seq<Ty>)

  predicate NameChar(c: char) {
    IsAlpha(c) || IsDigit(c) || c == '_' || c == '\''
  }

  /** An identifier of the source language. */
  predicate Identifier(n: string) {
    |n| > 0 && IsAlpha(n[0]) && forall c :: c in n ==> NameChar(c)
  }

  predicate WellFormed(t: Ty) {
    match t
    case Int => true
    case Bool => true
    case Record(n) => Identifier(n)
    case Array(e) => WellFormed(e)
    case Tuple(cs) => |cs| > 0 && forall c :: c in cs ==> WellFormed(c)
  }

  /** The source form. */
  function Print(t: Ty): string {
    match t
    case Int => "int"
    case Bool => "bool"
    case Record(n) => n
    case Array(e) => Print(e) + "[]"
    case Tuple(cs) => "(" + PrintAll(cs) + ")"
  }

  function PrintAll(cs: seq<Ty>): string {
    if cs == [] then "" else if |cs| == 1 then Print(cs[0]) else Print(cs[0]) + ", " + PrintAll(cs[1..])
  }

  function Escape(n: string): string {
    if n == "" then "" else (if n[0] == '_' then "__" else [n[0]]) + Escape(n[1..])
  }

  function Digit(d: nat): char
    requires d < 10
  {
    '0' + d as char
  }

  function Dec(n: nat): (d: string)
    ensures |d| > 0
  {
    if n < 10 then [Digit(n)] else Dec(n / 10) + [Digit(n % 10)]
  }

  /** The encoding: underscores doubled, lengths counted before that.  Without `escaping`,
      record names are copied as they are, which is what the compiler's own mangler does. */
  function Encode(t: Ty, escaping: bool): string {
    match t
    case Int => "i"
    case Bool => "b"
    case Record(n) => "r" + Dec(|n|) + if escaping then Escape(n) else n
    case Array(e) => "a" + Encode(e, escaping)
    case Tuple(cs) => "t" + Dec(|cs|) + EncodeAll(cs, escaping)
  }

  function EncodeAll(cs: seq<Ty>, escaping: bool): string {
    if cs == [] then "" else Encode(cs[0], escaping) + EncodeAll(cs[1..], escaping)
  }

  // ------------------------------------------------------- what the parsers read

  /** Where the longest name from `start` on ends, when everything up to `pos` belongs to it. */
  function NameEnd(s: string, start: nat, pos: nat): (e: nat)
    requires start <= pos <= |s|
    ensures pos <= e <= |s|
    decreases |s| - pos
  {
    if pos >= |s| then pos
    else if IsAlpha(s[pos]) then NameEnd(s, start, pos + 1)
    else if pos == start then pos
    else if IsDigit(s[pos]) then NameEnd(s, start, pos + 1)
    else if s[pos] == '_' && At(s, pos + 1) == '_' then NameEnd(s, start, pos + 2)
    else pos
  }

  /** Every underscore takes the character behind it along. */
  function Strip(raw: string): string
    decreases |raw|
  {
    if raw == "" then ""
    else [raw[0]] + Strip(if raw[0] != '_' then raw[1..] else if |raw| == 1 then "" else raw[2..])
  }

  function ParseName(s: string, pos: nat): (r: Res)
    requires pos <= |s|
    ensures r.Ok? ==> pos < r.next <= |s|
    ensures !r.Overrun?
  {
    var e := NameEnd(s, pos, pos);
    if e == pos then Fail else Ok(Strip(s[pos..e]), e)
  }

  function ParseNumber(s: string, pos: nat, acc: nat): (r: (nat, nat))
    requires pos <= |s|
    ensures pos <= r.1 <= |s|
    ensures acc == 0 && r.0 != 0 ==> pos < r.1
    decreases |s| - pos
  {
    if IsDigit(At(s, pos)) then ParseNumber(s, pos + 1, 10 * acc + (s[pos] - '0') as nat)
    else (acc, pos)
  }

  /** The characters of a record name of unescaped length `n`. */
  function Copy(s: string, pos: nat, n: nat): (r: Res)
    requires pos <= |s|
    ensures r.Ok? ==> pos + n <= r.next <= |s| && |r.text| == n
    decreases |s| - pos
  {
    if n == 0 then Ok("", pos)
    else if pos == |s| then Overrun
    else if s[pos] == '_' then
      if At(s, pos + 1) != '_' then Fail else Prefixed('_', Copy(s, pos + 2, n - 1))
    else Prefixed(s[pos], Copy(s, pos + 1, n - 1))
  }

  function Prefixed(c: char, r: Res): Res {
    if r.Ok? then Ok([c] + r.text, r.next) else r
  }

  function ParseType(s: string, pos: nat): (r: Res)
    requires pos <= |s|
    ensures r.Ok? ==> pos < r.next <= |s|
    decreases |s| - pos, 0, 0
  {
    var c := At(s, pos);
    if c == 'i' then Ok("int", pos + 1)
    else if c == 'b' then Ok("bool", pos + 1)
    else if c == 'r' then
      var (length, p) := ParseNumber(s, pos + 1, 0);
      if length == 0 then Fail else Copy(s, p, length)
    else if c == 'a' then
      var e := ParseType(s, pos + 1);
      if e.Ok? then Ok(e.text + "[]", e.next) else e
    else if c == 't' then
      var (n, p) := ParseNumber(s, pos + 1, 0);
      if n == 0 then Fail
      else
        var r := ParseComps(s, p, n);
        if r.Ok? then Ok("(" + r.text + ")", r.next) else r
    else Fail
  }

  /** The components of a tuple. */
  function ParseComps(s: string, pos: nat, n: nat): (r: Res)
    requires pos <= |s| && n > 0
    ensures r.Ok? ==> pos < r.next <= |s|
    decreases |s| - pos, 1, n
  {
    var r := ParseType(s, pos);
    if !r.Ok? || n == 1 then r
    else
      var rest := ParseComps(s, r.next, n - 1);
      if rest.Ok? then Ok(r.text + ", " + rest.text, rest.next) else rest
  }

  /** The arguments of a function: types as long as there are any. */
  function ParseArgs(s: string, pos: nat, first: bool): (r: Res)
    requires pos <= |s|
    ensures !r.Fail? && (r.Ok? ==> pos <= r.next <= |s|)
    decreases |s| - pos
  {
    var r := ParseType(s, pos);
    if r.Fail? then Ok("", pos)
    else if r.Overrun? then r
    else
      var rest := ParseArgs(s, r.next, false);
      if rest.Ok? then Ok((if first then "" else ", ") + r.text + rest.text, rest.next) else rest
  }

  function SetupPrefix(kind: string): string {
    if kind == "vt" then "Eta vtable for "
    else if kind == "size" then "Eta size of "
    else if kind == "init" then "Eta init of "
    else ""
  }

  function ParseSetup(s: string, pos: nat): (r: Res)
    requires pos <= |s|
    ensures r.Ok? ==> pos < r.next <= |s|
  {
    var kind := ParseName(s, pos);
    if !kind.Ok? || At(s, kind.next) != '_' then Fail
    else
      var name := ParseName(s, kind.next + 1);
      if !name.Ok? || SetupPrefix(kind.text) == "" then Fail
      else Ok(SetupPrefix(kind.text) + name.text, name.next)
  }

  function ParseGlobal(s: string, pos: nat): (r: Res)
    requires pos <= |s|
    ensures r.Ok? ==> pos < r.next <= |s|
  {
    var kind := ParseName(s, pos);
    if !kind.Ok? || At(s, kind.next) != '_' || kind.text != "g" then Fail
    else
      var name := ParseName(s, kind.next + 1);
      if !name.Ok? || At(s, name.next) != '_' then Fail
      else
        var t := ParseType(s, name.next + 1);
        if t.Ok? then Ok(name.text + ": " + t.text, t.next) else t
  }

  predicate StartsWith(s: string, pos: nat, prefix: string) {
    forall k :: 0 <= k < |prefix| ==> At(s, pos + k) == prefix[k]
  }

  const ALLOC := "_eta_alloc"
  const OUT_OF_BOUNDS := "_eta_out_of_bounds"

  function ParseSymbol(s: string, pos: nat): (r: Res)
    requires pos <= |s|
    ensures r.Ok? ==> pos < r.next <= |s|
  {
    if StartsWith(s, pos, ALLOC) then
      assert At(s, pos + 9) == ALLOC[9];
      Ok("[etaruntime]alloc(int): ?[]", pos + |ALLOC|)
    else if StartsWith(s, pos, OUT_OF_BOUNDS) then
      assert At(s, pos + 17) == OUT_OF_BOUNDS[17];
      Ok("[etaruntime]out_of_bounds()", pos + |OUT_OF_BOUNDS|)
    else if At(s, pos) != '_' || At(s, pos + 1) != 'I' then Fail
    else if At(s, pos + 2) == '_' then
      var setup := ParseSetup(s, pos + 3);
      if setup.Ok? then setup
      else
        var global := ParseGlobal(s, pos + 3);
        if !global.Fail? then global else ParseFunction(s, pos + 3)
    else ParseFunction(s, pos + 2)
  }

  /** A name, the result type or `p`, and the arguments. */
  function ParseFunction(s: string, pos: nat): (r: Res)
    requires pos <= |s|
    ensures r.Ok? ==> pos < r.next <= |s|
  {
    var name := ParseName(s, pos);
    if !name.Ok? || At(s, name.next) != '_' then Fail
    else
      var p := name.next + 1;
      var result := if At(s, p) == 'p' then Ok("", p + 1) else ParseType(s, p);
      if !result.Ok? then result
      else
        var args := ParseArgs(s, result.next, true);
        if !args.Ok? then args
        else
          Ok(name.text + "(" + args.text + ")" + (if At(s, p) == 'p' then "" else ": " + result.text), args.next)
  }

  // ------------------------------------------------------- reading back what was written

  /** `part` stands in `s` at `pos`. */
  predicate Stands(s: string, pos: nat, part: string) {
    pos + |part| <= |s| && s[pos..pos + |part|] == part
  }

  lemma StandsSplit(s: string, pos: nat, a: string, b: string)
    requires Stands(s, pos, a + b)
    ensures Stands(s, pos, a) && Stands(s, pos + |a|, b)
  {
    assert s[pos..pos + |a|] == s[pos..pos + |a + b|][..|a|];
    assert s[pos + |a|..pos + |a| + |b|] == s[pos..pos + |a + b|][|a|..];
  }

  lemma StandsWithin(s: string, pos: nat, a: string)
    requires Stands(s, pos, a)
    ensures pos + |a| <= |s|
  {
  }

  lemma StandsAt(s: string, pos: nat, a: string)
    requires Stands(s, pos, a) && a != ""
    ensures At(s, pos) == a[0] && Stands(s, pos + 1, a[1..])
  {
    assert s[pos] == s[pos..pos + |a|][0];
    assert s[pos + 1..pos + |a|] == s[pos..pos + |a|][1..];
  }

  lemma DigitValue(d: nat)
    requires d < 10
    ensures IsDigit(Digit(d)) && (Digit(d) - '0') as nat == d
  {
  }

  /** The number that results when the digits of `n` follow those of `acc`. */
  function Shift(acc: nat, n: nat): nat {
    if n < 10 then 10 * acc + n else 10 * Shift(acc, n / 10) + n % 10
  }

  lemma {:induction false} ShiftZero(n: nat)
    ensures Shift(0, n) == n
  {
    if n >= 10 { ShiftZero(n / 10); }
  }

  lemma {:induction false} NumberRead(s: string, pos: nat, acc: nat, n: nat)
    requires Stands(s, pos, Dec(n))
    ensures ParseNumber(s, pos, acc) == ParseNumber(s, pos + |Dec(n)|, Shift(acc, n))
  {
    if n < 10 {
      StandsAt(s, pos, Dec(n));
      DigitValue(n);
    } else {
      var d := [Digit(n % 10)];
      StandsSplit(s, pos, Dec(n / 10), d);
      NumberRead(s, pos, acc, n / 10);
      StandsAt(s, pos + |Dec(n / 10)|, d);
      DigitValue(n % 10);
    }
  }

  /** A number is read back when no digit follows it. */
  lemma NumberRoundTrip(s: string, pos: nat, n: nat)
    requires Stands(s, pos, Dec(n)) && !IsDigit(At(s, pos + |Dec(n)|))
    ensures ParseNumber(s, pos, 0) == (n, pos + |Dec(n)|)
  {
    NumberRead(s, pos, 0, n);
    ShiftZero(n);
  }

  lemma {:induction false} CopyRoundTrip(s: string, pos: nat, n: string)
    requires Stands(s, pos, Escape(n))
    ensures Copy(s, pos, |n|) == Ok(n, pos + |Escape(n)|)
    decreases |n|
  {
    if n != "" {
      var e := if n[0] == '_' then "__" else [n[0]];
      StandsSplit(s, pos, e, Escape(n[1..]));
      StandsAt(s, pos, e);
      if n[0] == '_' { StandsAt(s, pos + 1, e[1..]); }
      CopyRoundTrip(s, pos + |e|, n[1..]);
    }
  }

  lemma {:induction false} EscapeStart(n: string)
    requires n != ""
    ensures Escape(n) != "" && Escape(n)[0] == n[0]
  {
  }

  /** Every type is read back from its encoding, whatever follows. */
  lemma {:induction false} TypeRoundTrip(s: string, pos: nat, t: Ty)
    requires WellFormed(t) && Stands(s, pos, Encode(t, true))
    ensures ParseType(s, pos) == Ok(Print(t), pos + |Encode(t, true)|)
    decreases t, 0
  {
    hide Stands, Dec, ParseType, ParseComps, ParseNumber, EncodeAll, PrintAll, At;
    EncodeStart(t, true);
    StandsAt(s, pos, Encode(t, true));
    StandsWithin(s, pos, Encode(t, true));
    match t
    case Int =>
      SimpleParse(s, pos);
    case Bool =>
      SimpleParse(s, pos);
    case Record(n) =>
      RecordRoundTrip(s, pos, n);
    case Array(e) =>
      StandsSplit(s, pos, "a", Encode(e, true));
      TypeRoundTrip(s, pos + 1, e);
      ArrayParse(s, pos);
    case Tuple(cs) =>
      TupleStart(s, pos, cs, true);
      var p := pos + 1 + |Dec(|cs|)|;
      CompsRoundTrip(s, p, cs);
      TupleParse(s, pos, |cs|, p);
  }

  lemma SimpleParse(s: string, pos: nat)
    requires pos < |s|
    ensures At(s, pos) == 'i' ==> ParseType(s, pos) == Ok("int", pos + 1)
    ensures At(s, pos) == 'b' ==> ParseType(s, pos) == Ok("bool", pos + 1)
  {
  }

  lemma ArrayParse(s: string, pos: nat)
    requires pos < |s| && At(s, pos) == 'a'
    ensures ParseType(s, pos) ==
      var e := ParseType(s, pos + 1); if e.Ok? then Ok(e.text + "[]", e.next) else e
  {
  }

  lemma TupleParse(s: string, pos: nat, n: nat, p: nat)
    requires pos < |s| && At(s, pos) == 't' && ParseNumber(s, pos + 1, 0) == (n, p) && n > 0
    ensures ParseType(s, pos) ==
      var r := ParseComps(s, p, n); if r.Ok? then Ok("(" + r.text + ")", r.next) else r
  {
  }

  lemma RecordRoundTrip(s: string, pos: nat, n: string)
    requires Identifier(n) && Stands(s, pos, Encode(Record(n), true))
    ensures ParseType(s, pos) == Ok(n, pos + |Encode(Record(n), true)|)
  {
    EscapeStart(n);
    RecordStart(s, pos, |n|, Escape(n));
    CopyRoundTrip(s, pos + 1 + |Dec(|n|)|, n);
  }

  /** The length of a record name is read and the name follows. */
  lemma RecordStart(s: string, pos: nat, n: nat, body: string)
    requires n > 0 && body != "" && IsAlpha(body[0]) && Stands(s, pos, "r" + Dec(n) + body)
    ensures pos + 1 + |Dec(n)| <= |s| && ParseType(s, pos) == Copy(s, pos + 1 + |Dec(n)|, n) &&
      Stands(s, pos + 1 + |Dec(n)|, body)
  {
    hide Stands, Dec, ParseNumber, Copy, ParseType;
    assert "r" + Dec(n) + body == "r" + (Dec(n) + body);
    StandsSplit(s, pos, "r", Dec(n) + body);
    StandsAt(s, pos, "r");
    StandsSplit(s, pos + 1, Dec(n), body);
    StandsAt(s, pos + 1 + |Dec(n)|, body);
    StandsWithin(s, pos + 1 + |Dec(n)|, body);
    NumberRoundTrip(s, pos + 1, n);
    RecordParse(s, pos, n, pos + 1 + |Dec(n)|);
  }

  /** The count of a tuple is read and its components follow. */
  lemma TupleStart(s: string, pos: nat, cs: seq<Ty>, escaping: bool)
    requires |cs| > 0 && Stands(s, pos, Encode(Tuple(cs), escaping))
    ensures At(s, pos) == 't' && ParseNumber(s, pos + 1, 0) == (|cs|, pos + 1 + |Dec(|cs|)|)
    ensures Stands(s, pos + 1 + |Dec(|cs|)|, EncodeAll(cs, escaping))
  {
    hide Stands, ParseNumber, Dec, At;
    assert Encode(Tuple(cs), escaping) == "t" + (Dec(|cs|) + EncodeAll(cs, escaping));
    StandsAt(s, pos, Encode(Tuple(cs), escaping));
    StandsSplit(s, pos, "t", Dec(|cs|) + EncodeAll(cs, escaping));
    StandsSplit(s, pos + 1, Dec(|cs|), EncodeAll(cs, escaping));
    EncodeStart(cs[0], escaping);
    StandsAt(s, pos + 1 + |Dec(|cs|)|, EncodeAll(cs, escaping));
    NumberRoundTrip(s, pos + 1, |cs|);
  }

  lemma EncodeStart(t: Ty, escaping: bool)
    ensures Encode(t, escaping) != ""
    ensures Encode(t, escaping)[0] in "ibrat"
  {
  }

  lemma {:induction false} CompsRoundTrip(s: string, pos: nat, cs: seq<Ty>)
    requires |cs| > 0 && (forall c :: c in cs ==> WellFormed(c)) && Stands(s, pos, EncodeAll(cs, true))
    ensures ParseComps(s, pos, |cs|) == Ok(PrintAll(cs), pos + |EncodeAll(cs, true)|)
    decreases cs, 1
  {
    hide Stands, ParseType, Encode, Print, WellFormed;
    StandsSplit(s, pos, Encode(cs[0], true), EncodeAll(cs[1..], true));
    TypeRoundTrip(s, pos, cs[0]);
    if |cs| > 1 {
      CompsRoundTrip(s, pos + |Encode(cs[0], true)|, cs[1..]);
    }
  }

  // ------------------------------------------------------- names

  /** A name without quotes: what a function or global name must be to be read back. */
  predicate PlainName(n: string) {
    Identifier(n) && '\'' !in n
  }

  lemma {:induction false} NameEndSkips(s: string, start: nat, pos: nat, n: string)
    requires start <= pos && Stands(s, pos, Escape(n))
    requires forall c :: c in n ==> IsAlpha(c) || IsDigit(c) || c == '_'
    requires pos > start || n == "" || IsAlpha(n[0])
    ensures NameEnd(s, start, pos) == NameEnd(s, start, pos + |Escape(n)|)
    decreases |n|
  {
    if n != "" {
      var e := if n[0] == '_' then "__" else [n[0]];
      assert n[0] in n;
      StandsSplit(s, pos, e, Escape(n[1..]));
      StandsAt(s, pos, e);
      if n[0] == '_' { StandsAt(s, pos + 1, e[1..]); }
      NameEndSkips(s, start, pos + |e|, n[1..]);
    }
  }

  lemma {:induction false} StripEscape(n: string)
    ensures Strip(Escape(n)) == n
    decreases |n|
  {
    if n != "" {
      var e := Escape(n);
      StripEscape(n[1..]);
      assert e[if n[0] == '_' then 2 else 1..] == Escape(n[1..]);
    }
  }

  /** What ends a name: no letter, no digit, no doubled underscore. */
  predicate Ends(s: string, pos: nat) {
    var c := At(s, pos);
    !IsAlpha(c) && !IsDigit(c) && !(c == '_' && At(s, pos + 1) == '_')
  }

  /** A name is read back up to where it ends. */
  lemma NameRoundTrip(s: string, pos: nat, n: string)
    requires PlainName(n) && Stands(s, pos, Escape(n)) && Ends(s, pos + |Escape(n)|)
    ensures ParseName(s, pos) == Ok(n, pos + |Escape(n)|)
  {
    EscapeStart(n);
    forall c | c in n ensures IsAlpha(c) || IsDigit(c) || c == '_' {
      assert NameChar(c);
    }
    NameEndSkips(s, pos, pos, n);
    StripEscape(n);
  }

  // ------------------------------------------------------- signatures

  /** A function signature in source form and encoded; no result type for a procedure. */
  datatype Signature = Signature(name: string, args: seq<Ty>, result: seq<Ty>)

  predicate WellFormedSignature(f: Signature) {
    && Identifier(f.name) && |f.result| <= 1
    && (forall t :: t in f.args ==> WellFormed(t))
    && (forall t :: t in f.result ==> WellFormed(t))
  }

  function PrintArgs(args: seq<Ty>): string {
    if args == [] then "" else PrintAll(args)
  }

  function PrintSignature(f: Signature): string {
    f.name + "(" + PrintArgs(f.args) + ")" + if f.result == [] then "" else ": " + Print(f.result[0])
  }

  function EncodeSignature(f: Signature, escaping: bool): string {
    var result := if f.result == [] then "p" else Encode(f.result[0], escaping);
    "_I" + (Escape(f.name) + ("_" + (result + EncodeAll(f.args, escaping))))
  }

  /** The arguments are read back when no further type follows. */
  lemma {:induction false} ArgsRoundTrip(s: string, pos: nat, args: seq<Ty>, first: bool)
    requires (forall t :: t in args ==> WellFormed(t)) && Stands(s, pos, EncodeAll(args, true))
    requires ParseType(s, pos + |EncodeAll(args, true)|).Fail?
    ensures ParseArgs(s, pos, first) ==
      Ok((if first || args == [] then "" else ", ") + PrintArgs(args), pos + |EncodeAll(args, true)|)
    decreases |args|
  {
    hide Stands, ParseType, At, WellFormed, Encode, Print;
    if args != [] {
      StandsSplit(s, pos, Encode(args[0], true), EncodeAll(args[1..], true));
      TypeRoundTrip(s, pos, args[0]);
      ArgsRoundTrip(s, pos + |Encode(args[0], true)|, args[1..], false);
    }
  }

  /** Demangling a function symbol restores its signature and stops behind the symbol. */
  lemma SignatureRoundTrip(s: string, pos: nat, f: Signature)
    requires WellFormedSignature(f) && PlainName(f.name) && Stands(s, pos, EncodeSignature(f, true))
    requires ParseType(s, pos + |EncodeSignature(f, true)|).Fail?
    ensures ParseSymbol(s, pos) == Ok(PrintSignature(f), pos + |EncodeSignature(f, true)|)
  {
    hide Stands, ParseType, At, WellFormed, Encode, EncodeAll, Print, PrintArgs, ParseArgs, Escape, ParseName,
      Identifier, StartsWith;
    var ret := if f.result == [] then "p" else Encode(f.result[0], true);
    SignatureParts(s, pos, f, true);
    var p := pos + 2 + |Escape(f.name)|;
    NameRoundTrip(s, pos + 2, f.name);
    if f.result != [] {
      assert f.result[0] in f.result;
      EncodeStart(f.result[0], true);
      TypeRoundTrip(s, p + 1, f.result[0]);
    }
    ArgsRoundTrip(s, p + 1 + |ret|, f.args, true);
  }

  /** The pieces of an encoded signature. */
  lemma SignatureParts(s: string, pos: nat, f: Signature, escaping: bool)
    requires WellFormedSignature(f) && Stands(s, pos, EncodeSignature(f, escaping))
    ensures var ret := if f.result == [] then "p" else Encode(f.result[0], escaping);
      var p := pos + 2 + |Escape(f.name)|;
      && At(s, pos) == '_' && At(s, pos + 1) == 'I' && IsAlpha(At(s, pos + 2))
      && Stands(s, pos + 2, Escape(f.name)) && At(s, p) == '_' && At(s, p + 1) in "ibratp" && At(s, p + 1) == ret[0]
      && Stands(s, p + 1, ret) && Stands(s, p + 1 + |ret|, EncodeAll(f.args, escaping))
    ensures !StartsWith(s, pos, ALLOC) && !StartsWith(s, pos, OUT_OF_BOUNDS)
  {
    hide Stands, At, WellFormed, Encode, EncodeAll, Escape;
    var ret := if f.result == [] then "p" else Encode(f.result[0], escaping);
    var tail := EncodeAll(f.args, escaping);
    StandsSplit(s, pos, "_I", Escape(f.name) + ("_" + (ret + tail)));
    StandsAt(s, pos, "_I");
    StandsAt(s, pos + 1, "I");
    StandsSplit(s, pos + 2, Escape(f.name), "_" + (ret + tail));
    EscapeStart(f.name);
    StandsAt(s, pos + 2, Escape(f.name));
    var p := pos + 2 + |Escape(f.name)|;
    StandsSplit(s, p, "_", ret + tail);
    StandsAt(s, p, "_");
    StandsSplit(s, p + 1, ret, tail);
    if f.result != [] { EncodeStart(f.result[0], escaping); }
    StandsAt(s, p + 1, ret);
    NotRuntime(s, pos);
  }

  lemma NotRuntime(s: string, pos: nat)
    requires pos <= |s| && At(s, pos + 1) == 'I'
    ensures !StartsWith(s, pos, ALLOC) && !StartsWith(s, pos, OUT_OF_BOUNDS)
  {
    assert At(s, pos + 1) != ALLOC[1] && At(s, pos + 1) != OUT_OF_BOUNDS[1];
  }

  lemma {:induction false} EscapeConcat(a: string, b: string)
    ensures Escape(a + b) == Escape(a) + Escape(b)
    decreases |a|
  {
    if a == "" {
      assert a + b == b;
    } else {
      assert (a + b)[1..] == a[1..] + b;
      EscapeConcat(a[1..], b);
    }
  }

  lemma {:induction false} FirstQuote(n: string) returns (k: nat)
    requires '\'' in n
    ensures k < |n| && n[k] == '\'' && '\'' !in n[..k]
  {
    if n[0] == '\'' {
      k := 0;
    } else {
      var j := FirstQuote(n[1..]);
      k := j + 1;
      assert n[..k] == [n[0]] + n[1..][..j];
    }
  }

  /** A function whose name has a quote is not demangled at all. */
  lemma QuotedNameFails(s: string, pos: nat, f: Signature, escaping: bool)
    requires WellFormedSignature(f) && '\'' in f.name && Stands(s, pos, EncodeSignature(f, escaping))
    ensures ParseSymbol(s, pos) == Fail
  {
    hide Stands, ParseType, WellFormed, Encode, EncodeAll, ParseName, StartsWith, ParseArgs;
    SignatureParts(s, pos, f, escaping);
    var k := FirstQuote(f.name);
    var a, b := f.name[..k], f.name[k..];
    assert f.name == a + b;
    EscapeConcat(a, b);
    EscapeStart(b);
    StandsSplit(s, pos + 2, Escape(a), Escape(b));
    StandsAt(s, pos + 2 + |Escape(a)|, Escape(b));
    assert a != "" && a[0] == f.name[0];
    NameRoundTrip(s, pos + 2, a);
  }

  /** A function symbol is demangled exactly when the function's name has no quote. */
  lemma SignatureExactly(s: string, pos: nat, f: Signature)
    requires WellFormedSignature(f) && Stands(s, pos, EncodeSignature(f, true))
    requires ParseType(s, pos + |EncodeSignature(f, true)|).Fail?
    ensures ParseSymbol(s, pos) == Ok(PrintSignature(f), pos + |EncodeSignature(f, true)|) <==> '\'' !in f.name
  {
    hide Stands, ParseType, WellFormed, EncodeSignature, ParseSymbol, PrintSignature;
    if '\'' in f.name {
      QuotedNameFails(s, pos, f, true);
    } else {
      SignatureRoundTrip(s, pos, f);
    }
  }

  function EncodeGlobal(n: string, t: Ty): string {
    "_I_" + ("g" + ("_" + (Escape(n) + ("_" + Encode(t, true)))))
  }

  /** The pieces of an encoded global variable. */
  lemma GlobalParts(s: string, pos: nat, n: string, t: Ty)
    requires Identifier(n) && Stands(s, pos, EncodeGlobal(n, t))
    ensures var p := pos + 5 + |Escape(n)|;
      && At(s, pos) == '_' && At(s, pos + 1) == 'I' && At(s, pos + 2) == '_'
      && Stands(s, pos + 3, "g") && At(s, pos + 4) == '_' && At(s, pos + 5) == n[0]
      && Stands(s, pos + 5, Escape(n)) && At(s, p) == '_' && At(s, p + 1) in "ibrat"
      && Stands(s, p + 1, Encode(t, true))
  {
    hide Stands, At, Encode, Escape;
    EscapeStart(n);
    PrefixParts(s, pos, "g", Escape(n) + ("_" + Encode(t, true)));
    StandsSplit(s, pos + 5, Escape(n), "_" + Encode(t, true));
    StandsAt(s, pos + 5, Escape(n));
    var p := pos + 5 + |Escape(n)|;
    StandsSplit(s, p, "_", Encode(t, true));
    StandsAt(s, p, "_");
    EncodeStart(t, true);
    StandsAt(s, p + 1, Encode(t, true));
  }

  /** `_I_`, a kind, and an underscore. */
  lemma PrefixParts(s: string, pos: nat, kind: string, rest: string)
    requires Stands(s, pos, "_I_" + (kind + ("_" + rest)))
    ensures At(s, pos) == '_' && At(s, pos + 1) == 'I' && At(s, pos + 2) == '_'
    ensures Stands(s, pos + 3, kind) && At(s, pos + 3 + |kind|) == '_' && Stands(s, pos + 4 + |kind|, rest)
  {
    hide Stands, At;
    StandsSplit(s, pos, "_I_", kind + ("_" + rest));
    StandsAt(s, pos, "_I_");
    StandsAt(s, pos + 1, "I_");
    StandsAt(s, pos + 2, "_");
    StandsSplit(s, pos + 3, kind, "_" + rest);
    StandsSplit(s, pos + 3 + |kind|, "_", rest);
    StandsAt(s, pos + 3 + |kind|, "_");
  }

  /** Global variables: `_I_g_`, the name, and the type. */
  lemma GlobalRoundTrip(s: string, pos: nat, n: string, t: Ty)
    requires PlainName(n) && WellFormed(t) && Stands(s, pos, EncodeGlobal(n, t))
    ensures ParseSymbol(s, pos) == Ok(n + ": " + Print(t), pos + 6 + |Escape(n)| + |Encode(t, true)|)
  {
    hide Stands, At, ParseType, WellFormed, Encode, ParseName, StartsWith, Print, Escape, EncodeGlobal, ParseFunction;
    GlobalParts(s, pos, n, t);
    StandsWithin(s, pos + 3, "g");
    NotRuntime(s, pos);
    EscapeG();
    NameRoundTrip(s, pos + 3, "g");
    NameRoundTrip(s, pos + 5, n);
    TypeRoundTrip(s, pos + 6 + |Escape(n)|, t);
  }

  /** A name is read up to its first quote. */
  lemma QuotedNameStops(s: string, pos: nat, n: string) returns (k: nat)
    requires Identifier(n) && '\'' in n && Stands(s, pos, Escape(n))
    ensures 0 < k < |n| && n[k] == '\'' && '\'' !in n[..k] && |Escape(n[..k])| < |Escape(n)|
    ensures ParseName(s, pos) == Ok(n[..k], pos + |Escape(n[..k])|) && At(s, pos + |Escape(n[..k])|) == '\''
  {
    hide Stands, ParseName;
    k := FirstQuote(n);
    var a, b := n[..k], n[k..];
    assert n == a + b;
    EscapeConcat(a, b);
    EscapeStart(b);
    StandsSplit(s, pos, Escape(a), Escape(b));
    StandsAt(s, pos + |Escape(a)|, Escape(b));
    assert a != "" && a[0] == n[0];
    NameRoundTrip(s, pos, a);
  }

  /** A global whose name has a quote is at best taken for a function `g`. */
  lemma QuotedGlobal(s: string, pos: nat, n: string, t: Ty)
    requires Identifier(n) && '\'' in n && WellFormed(t) && Stands(s, pos, EncodeGlobal(n, t))
    ensures ParseSymbol(s, pos).Ok? ==> |ParseSymbol(s, pos).text| > 1 && ParseSymbol(s, pos).text[..2] == "g("
  {
    hide Stands, At, ParseType, ParseArgs, WellFormed, Encode, ParseName, StartsWith, Print, Escape, EncodeGlobal;
    GlobalParts(s, pos, n, t);
    StandsWithin(s, pos + 3, "g");
    NotRuntime(s, pos);
    EscapeG();
    NameRoundTrip(s, pos + 3, "g");
    var k := QuotedNameStops(s, pos + 5, n);
    assert ParseSetup(s, pos + 3) == Fail && ParseGlobal(s, pos + 3) == Fail;
    var f := ParseFunction(s, pos + 3);
    if f.Ok? { assert f.text[..2] == "g("; }
  }

  /** A global's symbol is demangled exactly when its name has no quote. */
  lemma GlobalExactly(s: string, pos: nat, n: string, t: Ty)
    requires Identifier(n) && WellFormed(t) && Stands(s, pos, EncodeGlobal(n, t))
    ensures ParseSymbol(s, pos) == Ok(n + ": " + Print(t), pos + 6 + |Escape(n)| + |Encode(t, true)|) <==> '\'' !in n
  {
    hide Stands, ParseType, WellFormed, EncodeGlobal, ParseSymbol, Print, Encode, Escape;
    if '\'' in n {
      QuotedGlobal(s, pos, n, t);
      assert n[1] in n && NameChar(n[1]);
      assert (n + ": " + Print(t))[1] == n[1] != "g("[1];
      StandsWithin(s, pos, EncodeGlobal(n, t));
      var r := ParseSymbol(s, pos);
      if r.Ok? { assert r.text[1] == r.text[..2][1] == '('; }
    } else {
      GlobalRoundTrip(s, pos, n, t);
    }
  }

  /** Two symbols that are demangled to something else. */
  lemma QuotesMisread()
    ensures Stands("_I_g_i'x_i", 0, EncodeGlobal("i'x", Int)) && ParseSymbol("_I_g_i'x_i", 0) == Ok("g(): int", 6)
    ensures Stands("_I_vt_a'b", 0, EncodeSetup("vt", "a'b")) && ParseSymbol("_I_vt_a'b", 0) == Ok("Eta vtable for a", 7)
  {
    hide ParseSymbol;
    EscapeSamples();
    assert EncodeGlobal("i'x", Int) == "_I_" + ("g" + ("_" + ("i'x" + ("_" + "i")))) == "_I_g_i'x_i";
    assert EncodeSetup("vt", "a'b") == "_I_" + ("vt" + ("_" + "a'b")) == "_I_vt_a'b";
    hide EncodeGlobal, EncodeSetup;
    GlobalSample();
    SetupSample();
  }

  lemma EscapeSamples()
    ensures Escape("i'x") == "i'x" && Escape("a'b") == "a'b"
  {
    assert Escape("x") == "x" && Escape("b") == "b";
    assert Escape("'x") == "'x" && Escape("'b") == "'b";
  }

  lemma GlobalSample()
    ensures ParseSymbol("_I_g_i'x_i", 0) == Ok("g(): int", 6)
  {
    var s := "_I_g_i'x_i";
    NotRuntime(s, 0);
    assert s[3..4] == "g" && s[5..6] == "i";
    assert NameEnd(s, 3, 3) == NameEnd(s, 3, 4) == 4 && NameEnd(s, 5, 5) == NameEnd(s, 5, 6) == 6;
    assert Strip("g") == "g" && Strip("i") == "i";
    assert ParseName(s, 3) == Ok("g", 4) && ParseName(s, 5) == Ok("i", 6);
    hide NameEnd, Strip, ParseName;
    assert ParseSetup(s, 3) == Fail && ParseGlobal(s, 3) == Fail;
    assert ParseType(s, 5) == Ok("int", 6) && ParseType(s, 6) == Fail;
    assert ParseArgs(s, 6, true) == Ok("", 6);
  }

  lemma SetupSample()
    ensures ParseSymbol("_I_vt_a'b", 0) == Ok("Eta vtable for a", 7)
  {
    var s := "_I_vt_a'b";
    NotRuntime(s, 0);
    assert s[3..5] == "vt" && s[6..7] == "a";
    assert NameEnd(s, 3, 3) == NameEnd(s, 3, 4) == NameEnd(s, 3, 5) == 5 && NameEnd(s, 6, 6) == NameEnd(s, 6, 7) == 7;
    assert Strip("t") == "t" && Strip("vt") == "vt" && Strip("a") == "a";
    assert ParseName(s, 3) == Ok("vt", 5) && ParseName(s, 6) == Ok("a", 7);
  }

  lemma EscapeG()
    ensures Escape("g") == "g"
  {
  }

  function EncodeSetup(kind: string, n: string): string {
    "_I_" + (kind + ("_" + Escape(n)))
  }

  /** Vtable, size and initializer symbols. */
  lemma SetupRoundTrip(s: string, pos: nat, kind: string, n: string)
    requires kind in {"vt", "size", "init"} && PlainName(n)
    requires Stands(s, pos, EncodeSetup(kind, n)) && Ends(s, pos + 4 + |kind| + |Escape(n)|)
    ensures ParseSymbol(s, pos) == Ok(SetupPrefix(kind) + n, pos + 4 + |kind| + |Escape(n)|)
  {
    hide Stands, ParseType, ParseName, StartsWith, ParseGlobal, Escape, ParseFunction;
    PrefixParts(s, pos, kind, Escape(n));
    StandsWithin(s, pos + 3, kind);
    NotRuntime(s, pos);
    var p := pos + 3 + |kind|;
    EscapeStart(n);
    StandsAt(s, p + 1, Escape(n));
    KindEscape(kind);
    NameRoundTrip(s, pos + 3, kind);
    NameRoundTrip(s, p + 1, n);
  }

  /** Of a name with a quote only the part before it is read. */
  lemma QuotedSetup(s: string, pos: nat, kind: string, n: string) returns (k: nat)
    requires kind in {"vt", "size", "init"} && Identifier(n) && '\'' in n && Stands(s, pos, EncodeSetup(kind, n))
    ensures k < |n| && n[k] == '\'' && '\'' !in n[..k]
    ensures ParseSymbol(s, pos) == Ok(SetupPrefix(kind) + n[..k], pos + 4 + |kind| + |Escape(n[..k])|)
  {
    hide Stands, ParseType, ParseName, StartsWith, ParseGlobal, Escape, ParseFunction;
    PrefixParts(s, pos, kind, Escape(n));
    StandsWithin(s, pos + 3, kind);
    NotRuntime(s, pos);
    var p := pos + 3 + |kind|;
    EscapeStart(n);
    StandsAt(s, p + 1, Escape(n));
    KindEscape(kind);
    NameRoundTrip(s, pos + 3, kind);
    k := QuotedNameStops(s, p + 1, n);
  }

  /** They are demangled exactly when the name has no quote. */
  lemma SetupExactly(s: string, pos: nat, kind: string, n: string)
    requires kind in {"vt", "size", "init"} && Identifier(n)
    requires Stands(s, pos, EncodeSetup(kind, n)) && Ends(s, pos + 4 + |kind| + |Escape(n)|)
    ensures ParseSymbol(s, pos) == Ok(SetupPrefix(kind) + n, pos + 4 + |kind| + |Escape(n)|) <==> '\'' !in n
  {
    hide Stands, ParseSymbol, Escape, EncodeSetup, Ends, SetupPrefix;
    if '\'' in n {
      var k := QuotedSetup(s, pos, kind, n);
      assert |SetupPrefix(kind) + n[..k]| < |SetupPrefix(kind) + n|;
    } else {
      SetupRoundTrip(s, pos, kind, n);
    }
  }

  /** The three kinds of setup symbols, and the two of the runtime, are shown with these texts. */
  lemma SetupTexts(s: string, pos: nat, n: string)
    requires Identifier(n) && '\'' !in n
    ensures
      Stands(s, pos, "_I_vt_" + Escape(n)) && Ends(s, pos + 6 + |Escape(n)|) ==>
        ParseSymbol(s, pos) == Ok("Eta vtable for " + n, pos + 6 + |Escape(n)|)
    ensures
      Stands(s, pos, "_I_size_" + Escape(n)) && Ends(s, pos + 8 + |Escape(n)|) ==>
        ParseSymbol(s, pos) == Ok("Eta size of " + n, pos + 8 + |Escape(n)|)
    ensures
      Stands(s, pos, "_I_init_" + Escape(n)) && Ends(s, pos + 8 + |Escape(n)|) ==>
        ParseSymbol(s, pos) == Ok("Eta init of " + n, pos + 8 + |Escape(n)|)
  {
    hide Stands, ParseSymbol, Escape, Ends, Identifier;
    assert "_I_vt_" + Escape(n) == EncodeSetup("vt", n);
    assert "_I_size_" + Escape(n) == EncodeSetup("size", n);
    assert "_I_init_" + Escape(n) == EncodeSetup("init", n);
    hide EncodeSetup;
    if Stands(s, pos, "_I_vt_" + Escape(n)) && Ends(s, pos + 6 + |Escape(n)|) { SetupExactly(s, pos, "vt", n); }
    if Stands(s, pos, "_I_size_" + Escape(n)) && Ends(s, pos + 8 + |Escape(n)|) { SetupExactly(s, pos, "size", n); }
    if Stands(s, pos, "_I_init_" + Escape(n)) && Ends(s, pos + 8 + |Escape(n)|) { SetupExactly(s, pos, "init", n); }
  }

  lemma RuntimeTexts(s: string, pos: nat)
    ensures
      Stands(s, pos, "_eta_alloc") ==> ParseSymbol(s, pos) == Ok("[etaruntime]alloc(int): ?[]", pos + 10)
    ensures
      Stands(s, pos, "_eta_out_of_bounds") ==> ParseSymbol(s, pos) == Ok("[etaruntime]out_of_bounds()", pos + 18)
  {
    hide ParseSetup, ParseGlobal, ParseFunction;
    if Stands(s, pos, OUT_OF_BOUNDS) {
      forall k | 0 <= k < |OUT_OF_BOUNDS| ensures At(s, pos + k) == OUT_OF_BOUNDS[k] {
        assert s[pos + k] == s[pos..pos + |OUT_OF_BOUNDS|][k];
      }
      assert At(s, pos + 5) == 'o' != ALLOC[5];
    }
    if Stands(s, pos, ALLOC) {
      forall k | 0 <= k < |ALLOC| ensures At(s, pos + k) == ALLOC[k] {
        assert s[pos + k] == s[pos..pos + |ALLOC|][k];
      }
    }
  }

  lemma KindEscape(kind: string)
    requires kind in {"vt", "size", "init"}
    ensures Escape(kind) == kind && PlainName(kind) && SetupPrefix(kind) != ""
  {
    assert Escape("t") == "t" && Escape("e") == "e";
    assert Escape("it") == "it" && Escape("ze") == "ze";
    assert Escape("nit") == "nit" && Escape("ize") == "ize";
  }

  // ------------------------------------------------------- reading past the end

  lemma {:induction false} OverrunText(s: string, pos: nat, n: nat) returns (str: string)
    requires pos <= |s| && Copy(s, pos, n) == Overrun
    ensures s[pos..] == Escape(str) && |str| < n
    decreases |s| - pos
  {
    if pos == |s| {
      str := "";
    } else {
      var step := if s[pos] == '_' then 2 else 1;
      var rest := OverrunText(s, pos + step, n - 1);
      str := [s[pos]] + rest;
      assert str[1..] == rest;
      assert s[pos..] == s[pos..pos + step] + s[pos + step..];
    }
  }

  lemma {:induction false} TooShortOverruns(s: string, pos: nat, n: nat, str: string)
    requires pos <= |s| && s[pos..] == Escape(str) && |str| < n
    ensures Copy(s, pos, n) == Overrun
    decreases |str|
  {
    if str != "" {
      var step := if str[0] == '_' then 2 else 1;
      assert s[pos..][0] == Escape(str)[0] == s[pos];
      assert step == 2 ==> s[pos..][1] == Escape(str)[1] == s[pos + 1];
      assert s[pos + step..] == s[pos..][step..] == Escape(str[1..]);
      TooShortOverruns(s, pos + step, n - 1, str[1..]);
    }
  }

  /** Copying a record name runs past the end of the string exactly when all that is left is
      a properly escaped text with fewer characters than announced. */
  lemma OverrunExactly(s: string, pos: nat, n: nat)
    requires pos <= |s|
    ensures Copy(s, pos, n) == Overrun <==> exists str :: s[pos..] == Escape(str) && |str| < n
  {
    if Copy(s, pos, n) == Overrun {
      var str := OverrunText(s, pos, n);
    }
    if str :| s[pos..] == Escape(str) && |str| < n {
      TooShortOverruns(s, pos, n, str);
    }
  }

  /** A record at `q` announces more characters than the properly escaped rest of the string has. */
  ghost predicate RunsOut(s: string, q: nat) {
    q < |s| && s[q] == 'r' &&
    var (n, p) := ParseNumber(s, q + 1, 0);
    n > 0 && exists str :: s[p..] == Escape(str) && |str| < n
  }

  /** Reading a record type runs past the end exactly if it announces too much. */
  lemma RecordOverrunExactly(s: string, pos: nat)
    requires pos < |s| && s[pos] == 'r'
    ensures ParseType(s, pos) == Overrun <==> RunsOut(s, pos)
  {
    var (n, p) := ParseNumber(s, pos + 1, 0);
    OverrunExactly(s, p, n);
  }

  /** Whatever runs past the end comes to such a record. */
  lemma {:induction false} TypeOverrun(s: string, pos: nat) returns (q: nat)
    requires pos <= |s| && ParseType(s, pos) == Overrun
    ensures pos <= q && RunsOut(s, q)
    decreases |s| - pos, 0, 0
  {
    hide RunsOut, Copy;
    var c := At(s, pos);
    if c == 'r' {
      RecordOverrunExactly(s, pos);
      q := pos;
    } else if c == 'a' {
      q := TypeOverrun(s, pos + 1);
    } else {
      var (n, p) := ParseNumber(s, pos + 1, 0);
      q := CompsOverrun(s, p, n);
    }
  }

  lemma {:induction false} CompsOverrun(s: string, pos: nat, n: nat) returns (q: nat)
    requires pos <= |s| && n > 0 && ParseComps(s, pos, n) == Overrun
    ensures pos <= q && RunsOut(s, q)
    decreases |s| - pos, 1, n
  {
    hide RunsOut, ParseType;
    var r := ParseType(s, pos);
    if r.Ok? {
      q := CompsOverrun(s, r.next, n - 1);
    } else {
      q := TypeOverrun(s, pos);
    }
  }

  lemma {:induction false} ArgsOverrun(s: string, pos: nat, first: bool) returns (q: nat)
    requires pos <= |s| && ParseArgs(s, pos, first) == Overrun
    ensures pos <= q && RunsOut(s, q)
    decreases |s| - pos
  {
    hide RunsOut, ParseType;
    var r := ParseType(s, pos);
    if r.Ok? {
      q := ArgsOverrun(s, r.next, false);
    } else {
      q := TypeOverrun(s, pos);
    }
  }

  lemma FunctionOverrun(s: string, pos: nat) returns (q: nat)
    requires pos <= |s| && ParseFunction(s, pos) == Overrun
    ensures pos < q && RunsOut(s, q)
  {
    hide RunsOut, ParseType, ParseArgs, ParseName;
    var p := ParseName(s, pos).next + 1;
    var result := if At(s, p) == 'p' then Ok("", p + 1) else ParseType(s, p);
    if result.Ok? {
      q := ArgsOverrun(s, result.next, true);
    } else {
      q := TypeOverrun(s, p);
    }
  }

  /** A symbol is read past its end only if it holds a record that announces too much; with no
      such record demangling stays within the string. */
  lemma SymbolOverrun(s: string, pos: nat) returns (q: nat)
    requires pos <= |s| && ParseSymbol(s, pos) == Overrun
    ensures pos < q && RunsOut(s, q)
  {
    hide RunsOut, ParseType, ParseArgs, ParseName, StartsWith;
    if At(s, pos + 2) == '_' {
      var global := ParseGlobal(s, pos + 3);
      if global.Overrun? {
        q := TypeOverrun(s, ParseName(s, ParseName(s, pos + 3).next + 1).next + 1);
      } else {
        q := FunctionOverrun(s, pos + 3);
      }
    } else {
      q := FunctionOverrun(s, pos + 2);
    }
  }

  /** A procedure whose argument is a record name of five characters, cut off after two. */
  lemma OverrunSample()
    ensures ParseSymbol("_If_pr5ab", 0) == Overrun
  {
    var s := "_If_pr5ab";
    NotRuntime(s, 0);
    assert s[2..3] == "f";
    assert NameEnd(s, 2, 2) == NameEnd(s, 2, 3) == 3 && Strip("f") == "f";
    assert ParseName(s, 2) == Ok("f", 3);
    assert ParseNumber(s, 6, 0) == ParseNumber(s, 7, 5) == (5, 7);
    assert Copy(s, 9, 3) == Overrun && Copy(s, 8, 4) == Overrun && Copy(s, 7, 5) == Overrun;
    assert ParseType(s, 5) == Overrun;
  }

  // ------------------------------------------------------- the compiler's own mangler

  /** Some record name has an underscore. */
  predicate HasUnderscore(t: Ty) {
    match t
    case Int => false
    case Bool => false
    case Record(n) => '_' in n
    case Array(e) => HasUnderscore(e)
    case Tuple(cs) => exists c :: c in cs && HasUnderscore(c)
  }

  lemma {:induction false} EscapePlain(n: string)
    requires '_' !in n
    ensures Escape(n) == n
    decreases |n|
  {
    if n != "" {
      assert n[0] in n;
      EscapePlain(n[1..]);
    }
  }

  lemma {:induction false} MangleIsEncode(t: Ty)
    requires !HasUnderscore(t)
    ensures Encode(t, false) == Encode(t, true)
    decreases t, 0
  {
    match t
    case Int =>
    case Bool =>
    case Record(n) => EscapePlain(n);
    case Array(e) => MangleIsEncode(e);
    case Tuple(cs) => MangleAllIsEncode(cs);
  }

  lemma {:induction false} MangleAllIsEncode(cs: seq<Ty>)
    requires forall c :: c in cs ==> !HasUnderscore(c)
    ensures EncodeAll(cs, false) == EncodeAll(cs, true)
    decreases cs, 1
  {
    if cs != [] {
      MangleIsEncode(cs[0]);
      MangleAllIsEncode(cs[1..]);
    }
  }

  /** Two texts that disagree at a position of both. */
  predicate Differ(a: string, b: string) {
    exists j :: 0 <= j < |a| && j < |b| && a[j] != b[j]
  }

  lemma DifferAppend(a: string, b: string, c: string, d: string)
    requires Differ(a, b)
    ensures Differ(a + c, b + d)
  {
    var j :| 0 <= j < |a| && j < |b| && a[j] != b[j];
    assert (a + c)[j] != (b + d)[j];
  }

  lemma DifferPrepend(p: string, a: string, b: string)
    requires Differ(a, b)
    ensures Differ(p + a, p + b)
  {
    var j :| 0 <= j < |a| && j < |b| && a[j] != b[j];
    assert (p + a)[|p| + j] != (p + b)[|p| + j];
  }

  /** Once the reader is `d` characters ahead within a run of underscores it never catches up. */
  lemma {:induction false} CopyAhead(s: string, pos: nat, n: string, d: nat)
    requires 1 <= d <= |n| && Stands(s, pos, n[d..]) && At(s, pos + |n| - d) != '_'
    requires forall j :: 0 <= j < d ==> n[j] == '_'
    ensures Copy(s, pos, |n|).Ok? ==> Copy(s, pos, |n|).text != n
    decreases |n|
  {
    assert n[0] == '_';
    var all := Copy(s, pos, |n|);
    if d == |n| || At(s, pos) != '_' {
      assert all.Ok? ==> all.text[0] == s[pos] == At(s, pos);
    } else {
      StandsAt(s, pos, n[d..]);
      if At(s, pos + 1) == '_' {
        assert d + 1 < |n|;
        StandsAt(s, pos + 1, n[d..][1..]);
        assert n[d..][1..][1..] == n[1..][d + 1..];
        CopyAhead(s, pos + 2, n[1..], d + 1);
        var r := Copy(s, pos + 2, |n| - 1);
        if r.Ok? { assert all.text[1..] == r.text; }
      }
    }
  }

  /** An unescaped name with an underscore is not read back. */
  lemma {:induction false} CopyDiverges(s: string, pos: nat, n: string)
    requires Stands(s, pos, n) && '_' in n && At(s, pos + |n|) != '_'
    ensures Copy(s, pos, |n|).Ok? ==> Copy(s, pos, |n|).text != n
    decreases |n|
  {
    StandsAt(s, pos, n);
    if n[0] != '_' {
      CopyDiverges(s, pos + 1, n[1..]);
    } else if At(s, pos + 1) == '_' {
      StandsAt(s, pos + 1, n[1..]);
      assert n[1..][1..] == n[2..];
      CopyAhead(s, pos + 2, n[1..], 1);
    }
  }

  lemma SameLengthDiffer(a: string, b: string)
    requires |a| == |b| && a != b
    ensures Differ(a, b)
  {
  }

  /** The outcome is not the text `b`, nor any text that begins like it. */
  predicate Misses(r: Res, b: string) {
    r.Ok? ==> Differ(r.text, b)
  }

  lemma RecordDiverges(s: string, pos: nat, n: string)
    requires Identifier(n) && '_' in n && Stands(s, pos, Encode(Record(n), false))
    requires At(s, pos + |Encode(Record(n), false)|) != '_'
    ensures Misses(ParseType(s, pos), n)
  {
    hide Stands, Dec, Copy, Misses, Differ, ParseType;
    RecordStart(s, pos, |n|, n);
    var p := pos + 1 + |Dec(|n|)|;
    CopyDiverges(s, p, n);
    var r := Copy(s, p, |n|);
    if r.Ok? { SameLengthDiffer(r.text, n); }
    MissesCopy(r, n);
  }

  lemma RecordParse(s: string, pos: nat, n: nat, p: nat)
    requires pos < |s| && At(s, pos) == 'r' && ParseNumber(s, pos + 1, 0) == (n, p) && n > 0
    ensures ParseType(s, pos) == Copy(s, p, n)
  {
  }

  lemma MissesCopy(r: Res, n: string)
    requires r.Ok? ==> Differ(r.text, n)
    ensures Misses(r, n)
  {
  }

  /** A mangled type with an underscore in a record name is never read back. */
  lemma {:induction false} MangleDiverges(s: string, pos: nat, t: Ty)
    requires WellFormed(t) && HasUnderscore(t) && Stands(s, pos, Encode(t, false))
    requires At(s, pos + |Encode(t, false)|) != '_'
    ensures Misses(ParseType(s, pos), Print(t))
    decreases t, 0
  {
    hide Stands, Dec, Differ;
    EncodeStart(t, false);
    StandsAt(s, pos, Encode(t, false));
    match t
    case Record(n) =>
      RecordDiverges(s, pos, n);
    case Array(e) =>
      StandsSplit(s, pos, "a", Encode(e, false));
      MangleDiverges(s, pos + 1, e);
      var r := ParseType(s, pos + 1);
      if r.Ok? { DifferAppend(r.text, Print(e), "[]", "[]"); }
    case Tuple(cs) =>
      TupleStart(s, pos, cs, false);
      var p := pos + 1 + |Dec(|cs|)|;
      CompsDiverge(s, p, cs);
      var r := ParseComps(s, p, |cs|);
      if r.Ok? {
        DifferPrepend("(", r.text, PrintAll(cs));
        DifferAppend("(" + r.text, "(" + PrintAll(cs), ")", ")");
      }
  }

  lemma {:induction false} CompsDiverge(s: string, pos: nat, cs: seq<Ty>)
    requires |cs| > 0 && (forall c :: c in cs ==> WellFormed(c)) && (exists c :: c in cs && HasUnderscore(c))
    requires Stands(s, pos, EncodeAll(cs, false)) && At(s, pos + |EncodeAll(cs, false)|) != '_'
    ensures Misses(ParseComps(s, pos, |cs|), PrintAll(cs))
    decreases cs, 1
  {
    hide Stands, Differ, ParseType, HasUnderscore, WellFormed, Encode, Print;
    var q := pos + |Encode(cs[0], false)|;
    StandsSplit(s, pos, Encode(cs[0], false), EncodeAll(cs[1..], false));
    if |cs| > 1 {
      EncodeStart(cs[1], false);
      StandsAt(s, q, EncodeAll(cs[1..], false));
    }
    if HasUnderscore(cs[0]) {
      MangleDiverges(s, pos, cs[0]);
      var r := ParseType(s, pos);
      if r.Ok? && |cs| > 1 {
        var rest := ParseComps(s, r.next, |cs| - 1);
        if rest.Ok? {
          DifferAppend(r.text, Print(cs[0]), ", ", ", ");
          DifferAppend(r.text + ", ", Print(cs[0]) + ", ", rest.text, PrintAll(cs[1..]));
        }
      }
    } else {
      MangleIsEncode(cs[0]);
      TypeRoundTrip(s, pos, cs[0]);
      CompsDiverge(s, q, cs[1..]);
      var rest := ParseComps(s, q, |cs| - 1);
      if rest.Ok? { DifferPrepend(Print(cs[0]) + ", ", rest.text, PrintAll(cs[1..])); }
    }
  }

  /** A type mangled by the compiler is read back exactly when no record name in it has an
      underscore. */
  lemma MangleExactly(s: string, pos: nat, t: Ty)
    requires WellFormed(t) && Stands(s, pos, Encode(t, false)) && At(s, pos + |Encode(t, false)|) != '_'
    ensures ParseType(s, pos) == Ok(Print(t), pos + |Encode(t, false)|) <==> !HasUnderscore(t)
  {
    hide Stands, ParseType, HasUnderscore, WellFormed, Encode, Print;
    if HasUnderscore(t) {
      MangleDiverges(s, pos, t);
    } else {
      MangleIsEncode(t);
      TypeRoundTrip(s, pos, t);
    }
  }
}
