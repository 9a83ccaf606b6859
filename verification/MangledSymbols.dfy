/** Function symbols as the compiler mangles them: function names escaped, record names not. */
module MangledSymbols {
  import opened Mangling

  predicate Unescaped(f: Signature) {
    (exists t :: t in f.args && HasUnderscore(t)) || (exists t :: t in f.result && HasUnderscore(t))
  }

  // ------------------------------------------------------- no colon is read where none stands

  predicate NoColon(s: string, pos: nat, end: nat) {
    forall k :: pos <= k < end && k < |s| ==> s[k] != ':'
  }

  lemma {:induction false} CopyNoColon(s: string, pos: nat, n: nat)
    requires pos <= |s| && Copy(s, pos, n).Ok? && NoColon(s, pos, Copy(s, pos, n).next)
    ensures ':' !in Copy(s, pos, n).text
    decreases |s| - pos
  {
    if n > 0 { CopyNoColon(s, pos + if s[pos] == '_' then 2 else 1, n - 1); }
  }

  lemma {:induction false} TypeNoColon(s: string, pos: nat)
    requires pos <= |s| && ParseType(s, pos).Ok? && NoColon(s, pos, ParseType(s, pos).next)
    ensures ':' !in ParseType(s, pos).text
    decreases |s| - pos, 0, 0
  {
    var c := At(s, pos);
    if c == 'r' {
      var (n, p) := ParseNumber(s, pos + 1, 0);
      CopyNoColon(s, p, n);
    } else if c == 'a' {
      TypeNoColon(s, pos + 1);
    } else if c == 't' {
      var (n, p) := ParseNumber(s, pos + 1, 0);
      CompsNoColon(s, p, n);
    }
  }

  lemma {:induction false} CompsNoColon(s: string, pos: nat, n: nat)
    requires pos <= |s| && n > 0 && ParseComps(s, pos, n).Ok? && NoColon(s, pos, ParseComps(s, pos, n).next)
    ensures ':' !in ParseComps(s, pos, n).text
    decreases |s| - pos, 1, n
  {
    hide ParseType;
    TypeNoColon(s, pos);
    if n > 1 { CompsNoColon(s, ParseType(s, pos).next, n - 1); }
  }

  lemma {:induction false} ArgsNoColon(s: string, pos: nat, first: bool)
    requires pos <= |s| && ParseArgs(s, pos, first).Ok? && NoColon(s, pos, ParseArgs(s, pos, first).next)
    ensures ':' !in ParseArgs(s, pos, first).text
    decreases |s| - pos
  {
    hide ParseType;
    var r := ParseType(s, pos);
    if r.Ok? {
      TypeNoColon(s, pos);
      ArgsNoColon(s, r.next, false);
    }
  }

  lemma IdentifierNoColon(n: string)
    requires Identifier(n)
    ensures ':' !in n
  {
    assert !NameChar(':');
  }

  lemma {:induction false} PrintNoColon(t: Ty)
    requires WellFormed(t)
    ensures ':' !in Print(t) && Print(t) != ""
    decreases t, 0
  {
    match t
    case Record(n) =>
      IdentifierNoColon(n);
    case Array(e) => PrintNoColon(e);
    case Tuple(cs) => PrintAllNoColon(cs);
    case _ =>
  }

  lemma {:induction false} PrintAllNoColon(cs: seq<Ty>)
    requires forall c :: c in cs ==> WellFormed(c)
    ensures ':' !in PrintAll(cs) && (cs != [] ==> PrintAll(cs) != "")
    decreases cs, 1
  {
    hide WellFormed, Print;
    if cs != [] {
      PrintNoColon(cs[0]);
      PrintAllNoColon(cs[1..]);
    }
  }

  lemma {:induction false} DecNoColon(n: nat)
    ensures ':' !in Dec(n)
  {
    if n < 10 { DigitValue(n); } else { DigitValue(n % 10); DecNoColon(n / 10); }
  }

  lemma {:induction false} EncodeNoColon(t: Ty)
    requires WellFormed(t)
    ensures ':' !in Encode(t, false)
    decreases t, 0
  {
    match t
    case Record(n) =>
      DecNoColon(|n|);
      IdentifierNoColon(n);
    case Array(e) => EncodeNoColon(e);
    case Tuple(cs) =>
      DecNoColon(|cs|);
      EncodeAllNoColon(cs);
    case _ =>
  }

  lemma {:induction false} EncodeAllNoColon(cs: seq<Ty>)
    requires forall c :: c in cs ==> WellFormed(c)
    ensures ':' !in EncodeAll(cs, false)
    decreases cs, 1
  {
    hide WellFormed, Encode;
    if cs != [] {
      EncodeNoColon(cs[0]);
      EncodeAllNoColon(cs[1..]);
    }
  }

  // ------------------------------------------------------- arguments

  lemma DifferFrom(a: string, b: string)
    requires Differ(a, b)
    ensures a != b
  {
  }

  /** Arguments with an underscore in a record name are not read back. */
  lemma {:induction false} ArgsDiverge(s: string, pos: nat, args: seq<Ty>, first: bool)
    requires (forall t :: t in args ==> WellFormed(t)) && (exists t :: t in args && HasUnderscore(t))
    requires Stands(s, pos, EncodeAll(args, false)) && At(s, pos + |EncodeAll(args, false)|) != '_'
    ensures pos <= |s|
    ensures ParseArgs(s, pos, first).Ok? ==>
      ParseArgs(s, pos, first).text != (if first then "" else ", ") + PrintAll(args)
    decreases |args|
  {
    hide Stands, ParseType, ParseArgs, At, WellFormed, Encode, Print, HasUnderscore, Misses;
    var q := pos + |Encode(args[0], false)|;
    StandsWithin(s, pos, EncodeAll(args, false));
    StandsSplit(s, pos, Encode(args[0], false), EncodeAll(args[1..], false));
    StandsWithin(s, pos, Encode(args[0], false));
    if |args| > 1 {
      EncodeStart(args[1], false);
      StandsAt(s, q, EncodeAll(args[1..], false));
    }
    if HasUnderscore(args[0]) {
      MangleDiverges(s, pos, args[0]);
      FirstDiverges(s, pos, args, first);
    } else {
      MangleIsEncode(args[0]);
      TypeRoundTrip(s, pos, args[0]);
      ArgsDiverge(s, q, args[1..], false);
      LaterDiverges(s, pos, q, args, first);
    }
  }

  lemma FirstDiverges(s: string, pos: nat, args: seq<Ty>, first: bool)
    requires pos <= |s| && args != [] && (forall t :: t in args ==> WellFormed(t))
    requires Misses(ParseType(s, pos), Print(args[0]))
    ensures ParseArgs(s, pos, first).Ok? ==>
      ParseArgs(s, pos, first).text != (if first then "" else ", ") + PrintAll(args)
  {
    hide ParseType, WellFormed, Print, Differ;
    PrintAllNoColon(args);
    var r := ParseType(s, pos);
    if r.Ok? {
      var rest := ParseArgs(s, r.next, false);
      if rest.Ok? {
        var tail := if |args| == 1 then "" else ", " + PrintAll(args[1..]);
        assert PrintAll(args) == Print(args[0]) + tail;
        FirstDiffers(if first then "" else ", ", r.text, Print(args[0]), rest.text, tail);
      }
    }
  }

  lemma LaterDiverges(s: string, pos: nat, q: nat, args: seq<Ty>, first: bool)
    requires pos < q <= |s| && |args| > 1 && ParseType(s, pos) == Ok(Print(args[0]), q)
    requires ParseArgs(s, q, false).Ok? ==> ParseArgs(s, q, false).text != ", " + PrintAll(args[1..])
    ensures ParseArgs(s, pos, first).Ok? ==>
      ParseArgs(s, pos, first).text != (if first then "" else ", ") + PrintAll(args)
  {
    hide ParseType, Print;
    var rest := ParseArgs(s, q, false);
    if rest.Ok? {
      assert PrintAll(args) == Print(args[0]) + (", " + PrintAll(args[1..]));
      SamePrefix(if first then "" else ", ", Print(args[0]), rest.text, ", " + PrintAll(args[1..]));
    }
  }

  lemma FirstDiffers(pre: string, a: string, b: string, x: string, y: string)
    requires Differ(a, b)
    ensures pre + a + x != pre + (b + y)
  {
    hide Differ;
    DifferAppend(a, b, x, y);
    DifferPrepend(pre, a + x, b + y);
    DifferFrom(pre + (a + x), pre + (b + y));
    assert pre + (a + x) == pre + a + x;
  }

  lemma SamePrefix(pre: string, a: string, x: string, y: string)
    requires x != y
    ensures pre + a + x != pre + (a + y)
  {
    assert (pre + a + x)[|pre + a|..] == x;
    assert (pre + (a + y))[|pre + a|..] == y;
  }

  // ------------------------------------------------------- whole symbols

  /** Where the first colon is. */
  function Colon(s: string): nat {
    if s == "" || s[0] == ':' then 0 else 1 + Colon(s[1..])
  }

  lemma {:induction false} ColonAt(a: string, x: string)
    requires ':' !in a
    ensures Colon(a + (": " + x)) == |a|
    decreases |a|
  {
    if a == "" {
      assert a + (": " + x) == ": " + x;
    } else {
      assert (a + (": " + x))[1..] == a[1..] + (": " + x);
      ColonAt(a[1..], x);
    }
  }

  /** The first colon divides a signature into what precedes the result type and that type. */
  lemma ColonSplits(a: string, b: string, x: string, y: string)
    requires ':' !in a && ':' !in b && a + (": " + x) == b + (": " + y)
    ensures a == b && x == y
  {
    ColonAt(a, x);
    ColonAt(b, y);
    var l := a + (": " + x);
    assert l[..|a|] == a && l[..|b|] == b;
    assert l[|a| + 2..] == x && (b + (": " + y))[|b| + 2..] == y;
  }

  lemma {:induction false} EscapeNoColon(n: string)
    requires ':' !in n
    ensures ':' !in Escape(n)
    decreases |n|
  {
    if n != "" { EscapeNoColon(n[1..]); }
  }

  /** The symbol's text has no colon. */
  lemma SymbolNoColon(s: string, pos: nat, f: Signature)
    requires WellFormedSignature(f) && Stands(s, pos, EncodeSignature(f, false))
    ensures NoColon(s, pos, pos + |EncodeSignature(f, false)|)
  {
    hide Escape, Encode, EncodeAll, WellFormed;
    IdentifierNoColon(f.name);
    EscapeNoColon(f.name);
    if f.result != [] { EncodeNoColon(f.result[0]); }
    EncodeAllNoColon(f.args);
    TextNoColon(s, pos, EncodeSignature(f, false));
  }

  lemma TextNoColon(s: string, pos: nat, part: string)
    requires Stands(s, pos, part) && ':' !in part
    ensures NoColon(s, pos, pos + |part|)
  {
    forall k | pos <= k < pos + |part| ensures s[k] != ':' {
      assert s[k] == s[pos..pos + |part|][k - pos] == part[k - pos];
    }
  }

  /** A result type that is misread is not made up for by the arguments. */
  lemma ResultDiverges(s: string, pos: nat, p: nat, f: Signature)
    requires WellFormedSignature(f) && f.result != [] && pos < p <= |s|
    requires ParseName(s, pos) == Ok(f.name, p - 1) && At(s, p - 1) == '_' && At(s, p) != 'p'
    requires Misses(ParseType(s, p), Print(f.result[0]))
    requires ParseFunction(s, pos).Ok? ==> NoColon(s, p, ParseFunction(s, pos).next)
    ensures ParseFunction(s, pos).Ok? ==> ParseFunction(s, pos).text != PrintSignature(f)
  {
    hide ParseType, ParseArgs, ParseName, WellFormed, Print, Differ;
    var r := ParseType(s, p);
    if r.Ok? && ParseArgs(s, r.next, true).Ok? {
      var args := ParseArgs(s, r.next, true);
      DifferFrom(r.text, Print(f.result[0]));
      ArgsNoColon(s, r.next, true);
      PrintAllNoColon(f.args);
      var a, b := f.name + "(" + args.text + ")", f.name + "(" + PrintArgs(f.args) + ")";
      IdentifierNoColon(f.name);
      ColonDiffers(a, b, r.text, Print(f.result[0]));
      assert PrintSignature(f) == b + (": " + Print(f.result[0]));
      assert ParseFunction(s, pos).text == a + (": " + r.text);
    }
  }

  lemma ColonDiffers(a: string, b: string, x: string, y: string)
    requires ':' !in a && ':' !in b && x != y
    ensures a + (": " + x) != b + (": " + y)
  {
    if a + (": " + x) == b + (": " + y) { ColonSplits(a, b, x, y); }
  }

  /** Arguments that are misread do not give the signature's text. */
  lemma TailDiverges(s: string, pos: nat, p: nat, f: Signature)
    requires pos < p <= |s| && |f.result| <= 1 && f.args != []
    requires ParseName(s, pos) == Ok(f.name, p - 1) && At(s, p - 1) == '_'
    requires if f.result == [] then At(s, p) == 'p' else At(s, p) != 'p' && ParseType(s, p).Ok?
    requires f.result != [] ==> ParseType(s, p).text == Print(f.result[0])
    requires var q := if f.result == [] then p + 1 else ParseType(s, p).next;
      q <= |s| && (ParseArgs(s, q, true).Ok? ==> ParseArgs(s, q, true).text != PrintAll(f.args))
    ensures ParseFunction(s, pos).Ok? ==> ParseFunction(s, pos).text != PrintSignature(f)
  {
    hide ParseType, ParseArgs, ParseName, Print, PrintAll;
    var q := if f.result == [] then p + 1 else ParseType(s, p).next;
    var args := ParseArgs(s, q, true);
    if args.Ok? {
      var tail := if f.result == [] then "" else ": " + Print(f.result[0]);
      MiddleDiffers(f.name + "(", args.text, PrintAll(f.args), ")" + tail);
      assert PrintSignature(f) == f.name + "(" + PrintAll(f.args) + (")" + tail);
      assert ParseFunction(s, pos).text == f.name + "(" + args.text + (")" + tail);
    }
  }

  lemma MiddleDiffers(a: string, x: string, y: string, b: string)
    requires x != y
    ensures a + x + b != a + y + b
  {
    var l, r := a + x + b, a + y + b;
    assert l[|a|..|l| - |b|] == x && r[|a|..|r| - |b|] == y;
  }

  /** What ParseSymbol does with a mangled function symbol. */
  lemma SymbolIsFunction(s: string, pos: nat, f: Signature) returns (p: nat)
    requires WellFormedSignature(f) && '\'' !in f.name && Stands(s, pos, EncodeSignature(f, false))
    ensures p == pos + 3 + |Escape(f.name)| <= |s|
    ensures ParseSymbol(s, pos) == ParseFunction(s, pos + 2)
    ensures ParseName(s, pos + 2) == Ok(f.name, p - 1) && At(s, p - 1) == '_'
    ensures if f.result == [] then At(s, p) == 'p' else At(s, p) in "ibrat"
  {
    hide Stands, ParseFunction, At, WellFormed, Encode, EncodeAll, Escape, ParseName, Identifier, StartsWith;
    p := pos + 3 + |Escape(f.name)|;
    SignatureParts(s, pos, f, false);
    StandsWithin(s, pos + 2, Escape(f.name));
    NameRoundTrip(s, pos + 2, f.name);
    if f.result != [] { EncodeStart(f.result[0], false); }
    StandsWithin(s, p, if f.result == [] then "p" else Encode(f.result[0], false));
  }

  /** With an underscore in a record name the symbol is not demangled to the signature. */
  lemma UnescapedDiverges(s: string, pos: nat, f: Signature)
    requires WellFormedSignature(f) && '\'' !in f.name && Unescaped(f) && Stands(s, pos, EncodeSignature(f, false))
    requires At(s, pos + |EncodeSignature(f, false)|) != '_'
    ensures pos <= |s| && ParseSymbol(s, pos) != Ok(PrintSignature(f), pos + |EncodeSignature(f, false)|)
  {
    hide Stands, ParseType, ParseArgs, ParseFunction, ParseSymbol, At, WellFormed, Encode, EncodeAll, Escape, ParseName,
      Print, PrintSignature, HasUnderscore, NoColon, Misses;
    var end := pos + |EncodeSignature(f, false)|;
    var p := SymbolIsFunction(s, pos, f);
    SignatureParts(s, pos, f, false);
    SymbolNoColon(s, pos, f);
    var ret := if f.result == [] then "p" else Encode(f.result[0], false);
    var q := p + |ret|;
    assert end == q + |EncodeAll(f.args, false)|;
    if f.result != [] && HasUnderscore(f.result[0]) {
      ArgsStart(s, q, f.args);
      MangleDiverges(s, p, f.result[0]);
      if ParseFunction(s, pos + 2).Ok? && ParseFunction(s, pos + 2).next == end {
        NoColonLater(s, pos, p, end);
        ResultDiverges(s, pos + 2, p, f);
      }
    } else {
      if f.result != [] {
        MangleIsEncode(f.result[0]);
        TypeRoundTrip(s, p, f.result[0]);
      }
      ArgsDiverge(s, q, f.args, true);
      assert "" + PrintAll(f.args) == PrintAll(f.args);
      TailDiverges(s, pos + 2, p, f);
    }
  }

  lemma NoColonLater(s: string, pos: nat, p: nat, end: nat)
    requires NoColon(s, pos, end) && pos <= p
    ensures NoColon(s, p, end)
  {
  }

  lemma ArgsStart(s: string, q: nat, args: seq<Ty>)
    requires Stands(s, q, EncodeAll(args, false)) && At(s, q + |EncodeAll(args, false)|) != '_'
    ensures At(s, q) != '_'
  {
    hide Stands, At, Encode;
    if args != [] {
      EncodeStart(args[0], false);
      StandsAt(s, q, EncodeAll(args, false));
    }
  }

  /** A function symbol mangled by the compiler is demangled to its signature exactly when the
      function's name has no quote and no record name has an underscore. */
  lemma MangledSignatureExactly(s: string, pos: nat, f: Signature)
    requires WellFormedSignature(f) && Stands(s, pos, EncodeSignature(f, false))
    requires ParseType(s, pos + |EncodeSignature(f, false)|).Fail? && At(s, pos + |EncodeSignature(f, false)|) != '_'
    ensures ParseSymbol(s, pos) == Ok(PrintSignature(f), pos + |EncodeSignature(f, false)|) <==>
      '\'' !in f.name && !Unescaped(f)
  {
    hide Stands, ParseType, WellFormed, Encode, EncodeAll, ParseSymbol, PrintSignature, HasUnderscore, Escape;
    if '\'' in f.name {
      QuotedNameFails(s, pos, f, false);
    } else if Unescaped(f) {
      UnescapedDiverges(s, pos, f);
    } else {
      MangleAllIsEncode(f.args);
      if f.result != [] { MangleIsEncode(f.result[0]); }
      assert EncodeSignature(f, false) == EncodeSignature(f, true);
      SignatureRoundTrip(s, pos, f);
    }
  }
}
