/** Symbols that have been cut off: at which places the demangler then reads past their end. */
module CutSymbols {
  import opened Mangling

  /** The string ends within `part`, which begins at `pos`. */
  predicate CutIn(s: string, pos: nat, part: string) {
    pos <= |s| && |s| - pos < |part| && s[pos..] == part[..|s| - pos]
  }

  /** The first `len` characters of the escaped name are those of whole characters of `n`: the
      cut does not part two underscores. */
  predicate Whole(n: string, len: nat) {
    len == 0 || (n != "" && |Escape(n[..1])| <= len && Whole(n[1..], len - |Escape(n[..1])|))
  }

  /** What is left of the encoding, its first `len` characters, ends in a record that has at
      least one digit of its length, and not between two underscores. */
  predicate CutOverruns(t: Ty, len: nat) {
    match t
    case Int => false
    case Bool => false
    case Record(n) => len >= 2 && (len <= 1 + |Dec(|n|)| || Whole(n, len - 1 - |Dec(|n|)|))
    case Array(e) => len >= 1 && CutOverruns(e, len - 1)
    case Tuple(cs) => len > 1 + |Dec(|cs|)| && CutAll(cs, len - 1 - |Dec(|cs|)|)
  }

  predicate CutAll(cs: seq<Ty>, len: nat) {
    cs != [] &&
    if len < |Encode(cs[0], true)| then CutOverruns(cs[0], len)
    else CutAll(cs[1..], len - |Encode(cs[0], true)|)
  }

  lemma CutSplit(s: string, pos: nat, a: string, b: string)
    requires CutIn(s, pos, a + b)
    ensures |s| - pos < |a| ==> CutIn(s, pos, a)
    ensures |s| - pos >= |a| ==> Stands(s, pos, a) && CutIn(s, pos + |a|, b)
  {
    var len := |s| - pos;
    if len < |a| {
      assert (a + b)[..len] == a[..len];
    } else {
      assert (a + b)[..len] == a + b[..len - |a|];
      assert s[pos..pos + |a|] == s[pos..][..|a|];
      assert s[pos + |a|..] == s[pos..][|a|..];
    }
  }

  /** Of a number that is cut off some digits are left, and no more. */
  lemma {:induction false} NumberCut(s: string, pos: nat, acc: nat, n: nat)
    requires CutIn(s, pos, Dec(n)) && (acc > 0 || n > 0)
    ensures ParseNumber(s, pos, acc).1 == |s|
    ensures ParseNumber(s, pos, acc).0 > 0 <==> acc > 0 || pos < |s|
    decreases n
  {
    if n < 10 {
      assert pos == |s|;
    } else {
      var d := [Digit(n % 10)];
      CutSplit(s, pos, Dec(n / 10), d);
      if |s| - pos < |Dec(n / 10)| {
        NumberCut(s, pos, acc, n / 10);
      } else {
        NumberRead(s, pos, acc, n / 10);
        ShiftPositive(acc, n / 10);
      }
    }
  }

  lemma {:induction false} ShiftPositive(acc: nat, n: nat)
    requires acc > 0 || n > 0
    ensures Shift(acc, n) > 0
  {
    if n >= 10 { ShiftPositive(acc, n / 10); }
  }

  lemma NothingLeft(s: string)
    ensures ParseType(s, |s|) == Fail
  {
  }

  lemma {:induction false} CopyCut(s: string, pos: nat, n: string, more: nat)
    requires CutIn(s, pos, Escape(n))
    ensures Copy(s, pos, |n| + more) == if Whole(n, |s| - pos) then Overrun else Fail
    decreases |n|
  {
    var e := if n[0] == '_' then "__" else [n[0]];
    assert Escape(n[..1]) == e by { assert n[..1][1..] == ""; }
    CutSplit(s, pos, e, Escape(n[1..]));
    if |s| - pos >= |e| {
      StandsAt(s, pos, e);
      if n[0] == '_' { StandsAt(s, pos + 1, e[1..]); }
      CopyCut(s, pos + |e|, n[1..], more);
    } else if pos < |s| {
      assert s[pos..][0] == e[0];
    }
  }

  lemma RecordCut(s: string, pos: nat, n: string)
    requires Identifier(n) && CutIn(s, pos, Encode(Record(n), true))
    ensures ParseType(s, pos) == if CutOverruns(Record(n), |s| - pos) then Overrun else Fail
  {
    hide Dec, Copy, ParseNumber, Stands, ParseType, Escape, Whole, At, CutIn;
    var d := Dec(|n|);
    assert Encode(Record(n), true) == "r" + (d + Escape(n));
    CutShort(s, pos, Encode(Record(n), true));
    if pos == |s| {
      NothingLeft(s);
    } else {
      CutSplit(s, pos, "r", d + Escape(n));
      StandsAt(s, pos, "r");
      CutSplit(s, pos + 1, d, Escape(n));
      if |s| - pos - 1 < |d| {
        NumberCut(s, pos + 1, 0, |n|);
        RecordEnds(s, pos);
      } else {
        NameFollows(s, pos + 1 + |d|, n);
        NumberRoundTrip(s, pos + 1, |n|);
        RecordParse(s, pos, |n|, pos + 1 + |d|);
        CopyCut(s, pos + 1 + |d|, n, 0);
        if |s| == pos + 1 + |d| { NoneWhole(n); }
      }
    }
  }

  lemma CutShort(s: string, pos: nat, part: string)
    requires CutIn(s, pos, part)
    ensures pos <= |s| && |s| - pos < |part|
  {
  }

  lemma NoneWhole(n: string)
    ensures Whole(n, 0)
  {
  }

  lemma NameFollows(s: string, pos: nat, n: string)
    requires Identifier(n) && CutIn(s, pos, Escape(n))
    ensures !IsDigit(At(s, pos))
  {
    EscapeStart(n);
    if pos < |s| { assert s[pos..][0] == Escape(n)[0]; }
  }

  lemma RecordEnds(s: string, pos: nat)
    requires pos < |s| && At(s, pos) == 'r' && ParseNumber(s, pos + 1, 0).1 == |s|
    ensures ParseType(s, pos) == if ParseNumber(s, pos + 1, 0).0 > 0 then Overrun else Fail
  {
  }

  /** Whatever is left of the encoding of a type is read past its end exactly if it is cut in
      that way, and is no type otherwise. */
  lemma {:induction false} TypeCut(s: string, pos: nat, t: Ty)
    requires WellFormed(t) && CutIn(s, pos, Encode(t, true))
    ensures ParseType(s, pos) == if CutOverruns(t, |s| - pos) then Overrun else Fail
    decreases t, 0
  {
    hide Dec, Copy, ParseNumber, Stands;
    if pos == |s| {
      NothingLeft(s);
    } else if t.Record? {
      RecordCut(s, pos, t.name);
    } else if t.Array? {
      CutSplit(s, pos, "a", Encode(t.elem, true));
      StandsAt(s, pos, "a");
      TypeCut(s, pos + 1, t.elem);
      ArrayParse(s, pos);
    } else if t.Tuple? {
      TupleCut(s, pos, t.comps);
    }
  }

  lemma {:induction false} TupleCut(s: string, pos: nat, cs: seq<Ty>)
    requires WellFormed(Tuple(cs)) && CutIn(s, pos, Encode(Tuple(cs), true)) && pos < |s|
    ensures ParseType(s, pos) == if CutOverruns(Tuple(cs), |s| - pos) then Overrun else Fail
    decreases cs, 2
  {
    hide Dec, Copy, ParseNumber, Stands;
    var d, rest := Dec(|cs|), EncodeAll(cs, true);
    assert Encode(Tuple(cs), true) == "t" + (d + rest);
    CutSplit(s, pos, "t", d + rest);
    StandsAt(s, pos, "t");
    CutSplit(s, pos + 1, d, rest);
    NothingLeft(s);
    if |s| - pos - 1 < |d| {
      NumberCut(s, pos + 1, 0, |cs|);
      TupleEnds(s, pos);
    } else {
      var p := pos + 1 + |d|;
      EncodeStart(cs[0], true);
      if p < |s| { assert s[p..][0] == rest[0] == Encode(cs[0], true)[0]; }
      NumberRoundTrip(s, pos + 1, |cs|);
      CompsCut(s, p, cs);
      TupleParse(s, pos, |cs|, p);
      NoneCut(cs);
    }
  }

  lemma TupleEnds(s: string, pos: nat)
    requires pos < |s| && s[pos] == 't' && ParseNumber(s, pos + 1, 0).1 == |s|
    ensures ParseType(s, pos) == Fail
  {
    NothingLeft(s);
  }

  lemma NoneCut(cs: seq<Ty>)
    ensures !CutAll(cs, 0)
  {
    if cs != [] {
      EncodeStart(cs[0], true);
      NothingOverruns(cs[0]);
    }
  }

  lemma NothingOverruns(t: Ty)
    ensures !CutOverruns(t, 0)
  {
  }

  lemma {:induction false} CompsCut(s: string, pos: nat, cs: seq<Ty>)
    requires |cs| > 0 && (forall c :: c in cs ==> WellFormed(c)) && CutIn(s, pos, EncodeAll(cs, true))
    ensures ParseComps(s, pos, |cs|) == if CutAll(cs, |s| - pos) then Overrun else Fail
    decreases cs, 1
  {
    hide Dec, Copy, ParseNumber, Stands, ParseType, CutOverruns, Encode;
    var first, rest := Encode(cs[0], true), EncodeAll(cs[1..], true);
    CutSplit(s, pos, first, rest);
    if |s| - pos < |first| {
      TypeCut(s, pos, cs[0]);
    } else {
      TypeRoundTrip(s, pos, cs[0]);
      CompsCut(s, pos + |first|, cs[1..]);
    }
  }

  lemma {:induction false} ArgsCut(s: string, pos: nat, args: seq<Ty>, first: bool)
    requires (forall t :: t in args ==> WellFormed(t)) && CutIn(s, pos, EncodeAll(args, true))
    ensures ParseArgs(s, pos, first) == Overrun <==> CutAll(args, |s| - pos)
    decreases args
  {
    hide Dec, Copy, ParseNumber, Stands, ParseType, CutOverruns, Encode;
    var t, rest := Encode(args[0], true), EncodeAll(args[1..], true);
    CutSplit(s, pos, t, rest);
    if |s| - pos < |t| {
      TypeCut(s, pos, args[0]);
    } else {
      TypeRoundTrip(s, pos, args[0]);
      ArgsCut(s, pos + |t|, args[1..], false);
    }
  }

  // ------------------------------------------------------- function symbols

  /** How many characters come before the result type. */
  function Lead(f: Signature): nat {
    3 + |Escape(f.name)|
  }

  /** The first `len` characters of a function symbol end in a type in that way. */
  predicate CutSymbol(f: Signature, len: nat) {
    len > Lead(f) &&
    if f.result == [] then CutAll(f.args, len - Lead(f) - 1) else CutAll(f.result + f.args, len - Lead(f))
  }

  /** Of a name that is cut off all is read but an underscore that was parted from its twin. */
  lemma {:induction false} NameCut(s: string, start: nat, pos: nat, n: string)
    requires start <= pos && CutIn(s, pos, Escape(n))
    requires forall c :: c in n ==> IsAlpha(c) || IsDigit(c) || c == '_'
    requires pos > start || IsAlpha(n[0])
    ensures var e := NameEnd(s, start, pos); e == |s| || (e == |s| - 1 && s[e] == '_')
    decreases |n|
  {
    var e := if n[0] == '_' then "__" else [n[0]];
    assert n[0] in n;
    CutSplit(s, pos, e, Escape(n[1..]));
    if |s| - pos >= |e| {
      StandsAt(s, pos, e);
      if n[0] == '_' { StandsAt(s, pos + 1, e[1..]); }
      NameCut(s, start, pos + |e|, n[1..]);
    } else if pos < |s| {
      assert s[pos..][0] == e[0];
    }
  }

  /** A symbol cut off in its name is not read past its end. */
  lemma FunctionCutInName(s: string, pos: nat, n: string)
    requires PlainName(n) && CutIn(s, pos, Escape(n))
    ensures ParseFunction(s, pos) == Fail
  {
    forall c | c in n ensures IsAlpha(c) || IsDigit(c) || c == '_' { assert NameChar(c); }
    NameCut(s, pos, pos, n);
    NothingLeft(s);
    hide NameEnd, Strip, ParseType, Escape;
  }

  /** The same behind the name. */
  lemma FunctionCutInTypes(s: string, pos: nat, f: Signature)
    requires WellFormedSignature(f) && PlainName(f.name) && Stands(s, pos, Escape(f.name))
    requires pos + |Escape(f.name)| < |s| && s[pos + |Escape(f.name)|] == '_'
    requires
      CutIn(s, pos + |Escape(f.name)| + 1, if f.result == [] then "p" + EncodeAll(f.args, true)
                                           else EncodeAll(f.result + f.args, true))
    ensures ParseFunction(s, pos) == Overrun <==> CutSymbol(f, |s| - pos + 2)
  {
    hide Dec, Copy, ParseNumber, Stands, ParseType, CutOverruns, Encode, ParseName, ParseArgs, CutIn, Escape;
    var p := pos + |Escape(f.name)| + 1;
    NextStarts(s, p, f);
    NameRoundTrip(s, pos, f.name);
    if f.result == [] {
      CutSplit(s, p, "p", EncodeAll(f.args, true));
      if p < |s| {
        StandsAt(s, p, "p");
        ArgsCut(s, p + 1, f.args, true);
      } else {
        NothingLeft(s);
      }
    } else {
      var r := f.result[0];
      assert (f.result + f.args)[0] == r && (f.result + f.args)[1..] == f.args && r in f.result;
      CutSplit(s, p, Encode(r, true), EncodeAll(f.args, true));
      if |s| - p < |Encode(r, true)| {
        if p < |s| { TypeCut(s, p, r); } else { NothingLeft(s); }
      } else {
        TypeRoundTrip(s, p, r);
        ArgsCut(s, p + |Encode(r, true)|, f.args, true);
      }
    }
  }

  /** The name has ended where the types begin. */
  lemma NextStarts(s: string, p: nat, f: Signature)
    requires 0 < p <= |s| && s[p - 1] == '_'
    requires CutIn(s, p, if f.result == [] then "p" + EncodeAll(f.args, true) else EncodeAll(f.result + f.args, true))
    ensures Ends(s, p - 1) && At(s, p - 1) == '_' && At(s, p) != '_'
    ensures f.result != [] ==> At(s, p) != 'p'
  {
    if f.result != [] { EncodeStart((f.result + f.args)[0], true); }
    var rest := if f.result == [] then "p" + EncodeAll(f.args, true) else EncodeAll(f.result + f.args, true);
    if p < |s| { assert s[p..][0] == rest[0]; }
  }

  /** A function symbol that has been cut off is read past its end exactly if it is cut in a
      record in that way. */
  lemma SymbolCutExactly(s: string, f: Signature)
    requires WellFormedSignature(f) && PlainName(f.name) && CutIn(s, 0, EncodeSignature(f, true))
    ensures ParseSymbol(s, 0) == Overrun <==> CutSymbol(f, |s|)
  {
    hide *;
    var types := if f.result == [] then "p" + EncodeAll(f.args, true) else EncodeAll(f.result + f.args, true);
    SignatureIs(f, types);
    CutSplit(s, 0, "_I", Escape(f.name) + ("_" + types));
    if |s| < 2 {
      TooShort(s, f);
    } else {
      StandsAt(s, 0, "_I");
      StandsAt(s, 1, "I");
      NotRuntime(s, 0);
      CutSplit(s, 2, Escape(f.name), "_" + types);
      NoSetup(s, f, types);
      JustFunction(s);
      if |s| - 2 < |Escape(f.name)| {
        FunctionCutInName(s, 2, f.name);
        ShortLead(f, |s|);
      } else {
        CutSplit(s, 2 + |Escape(f.name)|, "_", types);
        if |s| == 2 + |Escape(f.name)| {
          NameAlone(s, 2, f.name);
          ShortLead(f, |s|);
        } else {
          StandsAt(s, 2 + |Escape(f.name)|, "_");
          FunctionCutInTypes(s, 2, f);
        }
      }
    }
  }

  lemma SignatureIs(f: Signature, types: string)
    requires WellFormedSignature(f)
    requires types == if f.result == [] then "p" + EncodeAll(f.args, true) else EncodeAll(f.result + f.args, true)
    ensures EncodeSignature(f, true) == "_I" + (Escape(f.name) + ("_" + types))
  {
    if f.result != [] {
      assert (f.result + f.args)[0] == f.result[0] && (f.result + f.args)[1..] == f.args;
    }
  }

  lemma TooShort(s: string, f: Signature)
    requires |s| < 2
    ensures ParseSymbol(s, 0) == Fail && !CutSymbol(f, |s|)
  {
    assert At(s, 1) == NUL;
  }

  lemma ShortLead(f: Signature, len: nat)
    ensures len <= 2 + |Escape(f.name)| ==> !CutSymbol(f, len)
  {
  }

  lemma JustFunction(s: string)
    requires |s| >= 2 && At(s, 0) == '_' && At(s, 1) == 'I' && At(s, 2) != '_'
    requires !StartsWith(s, 0, ALLOC) && !StartsWith(s, 0, OUT_OF_BOUNDS)
    ensures ParseSymbol(s, 0) == ParseFunction(s, 2)
  {
    hide ParseFunction;
  }

  /** The character behind `_I` is a letter, if there is one. */
  lemma NoSetup(s: string, f: Signature, types: string)
    requires PlainName(f.name) && |s| >= 2
    requires CutIn(s, 2, Escape(f.name) + ("_" + types))
    ensures At(s, 2) != '_'
  {
    EscapeStart(f.name);
    if |s| > 2 { assert s[2..][0] == Escape(f.name)[0]; }
  }

  lemma NameAlone(s: string, pos: nat, n: string)
    requires PlainName(n) && Stands(s, pos, Escape(n)) && |s| == pos + |Escape(n)|
    ensures ParseFunction(s, pos) == Fail
  {
    NameRoundTrip(s, pos, n);
    hide ParseName, Escape, Stands;
  }
}
