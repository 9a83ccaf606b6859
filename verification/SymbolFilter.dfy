/** The filter around the demangler: symbols in a line of text are shown in their source form,
    everything else is copied. */
module SymbolFilter {
  import opened Mangling
  import opened Demangle

  /** What is printed for the rest of the line. */
  function Filtered(s: string, pos: nat): (r: Res)
    requires pos <= |s|
    ensures r.Ok? ==> pos <= r.next <= |s|
    ensures !r.Fail?
    decreases |s| - pos
  {
    if At(s, pos) == NUL then Ok("", pos)
    else
      var r := ParseSymbol(s, pos);
      if r.Overrun? then r
      else if r.Ok? then Onto(r.text, Filtered(s, r.next))
      else Onto([s[pos]], Filtered(s, pos + 1))
  }

  lemma OntoTwice(a: string, b: string, r: Res)
    ensures Onto(a, Onto(b, r)) == Onto(a + b, r)
  {
    if r.Ok? { assert a + (b + r.text) == a + b + r.text; }
  }

  /** The loop of `main` over one line, up to its terminating null character. */
  method FilterLine(line: string) returns (r: Res)
    ensures r == Filtered(line, 0)
  {
    hide ParseSymbol;
    var pos := 0;
    var out: string := "";
    assert Onto("", Filtered(line, 0)) == Filtered(line, 0) by { OntoNothing(Filtered(line, 0)); }
    while At(line, pos) != NUL
      invariant pos <= |line| && Filtered(line, 0) == Onto(out, Filtered(line, pos))
      decreases |line| - pos
    {
      var demangled, next := TrySymbol(line, pos);
      if demangled.Overrun? { return demangled; }
      if demangled.Ok? {
        OntoTwice(out, demangled.text, Filtered(line, next));
        out := out + demangled.text;
        pos := next;
      } else {
        OntoTwice(out, [line[pos]], Filtered(line, pos + 1));
        out := out + [line[pos]];
        pos := pos + 1;
      }
    }
    assert out + "" == out;
    return Ok(out, pos);
  }

  lemma OntoNothing(r: Res)
    ensures Onto("", r) == r
  {
    if r.Ok? { assert "" + r.text == r.text; }
  }

  // ------------------------------------------------------- lines with symbols in them

  /** A stretch of text and the mangled symbol of a function behind it. */
  datatype Piece = Piece(before: string, f: Signature)

  function Line(ps: seq<Piece>, tail: string): string {
    if ps == [] then tail else ps[0].before + (EncodeSignature(ps[0].f, true) + Line(ps[1..], tail))
  }

  function Shown(ps: seq<Piece>, tail: string): string {
    if ps == [] then tail else ps[0].before + (PrintSignature(ps[0].f) + Shown(ps[1..], tail))
  }

  /** Text that holds no underscore and does not read on as a type. */
  predicate Between(text: string) {
    '_' !in text && NUL !in text && (text == "" || text[0] !in "ibrat")
  }

  ghost predicate Filterable(ps: seq<Piece>, tail: string) {
    && Between(tail)
    && forall i :: 0 <= i < |ps| ==> Between(ps[i].before) && WellFormedSignature(ps[i].f) && PlainName(ps[i].f.name)
  }

  lemma NoSymbol(s: string, pos: nat)
    requires pos <= |s| && At(s, pos) != '_'
    ensures ParseSymbol(s, pos).Fail?
  {
    assert ALLOC[0] == '_' && OUT_OF_BOUNDS[0] == '_';
    assert At(s, pos + 0) != ALLOC[0];
  }

  lemma NoType(s: string, pos: nat)
    requires pos <= |s| && At(s, pos) !in "ibrat"
    ensures ParseType(s, pos).Fail?
  {
    assert "ibrat"[0] == 'i' && "ibrat"[1] == 'b' && "ibrat"[2] == 'r' && "ibrat"[3] == 'a' && "ibrat"[4] == 't';
  }

  /** Text without symbols is copied. */
  lemma {:induction false} TextCopied(s: string, pos: nat, text: string)
    requires Stands(s, pos, text) && '_' !in text && NUL !in text
    ensures pos + |text| <= |s| && Filtered(s, pos) == Onto(text, Filtered(s, pos + |text|))
    decreases |text|
  {
    hide ParseSymbol;
    StandsWithin(s, pos, text);
    if text == "" {
      OntoNothing(Filtered(s, pos));
    } else {
      assert text == [text[0]] + text[1..];
      StandsSplit(s, pos, [text[0]], text[1..]);
      StandsAt(s, pos, text);
      assert text[0] in text;
      NoSymbol(s, pos);
      TextCopied(s, pos + 1, text[1..]);
      OntoTwice([text[0]], text[1..], Filtered(s, pos + |text|));
    }
  }

  /** What follows a symbol does not read on as a type. */
  lemma LineStart(ps: seq<Piece>, tail: string)
    requires Filterable(ps, tail)
    ensures Line(ps, tail) == "" || Line(ps, tail)[0] !in "ibrat"
  {
    if ps != [] {
      assert EncodeSignature(ps[0].f, true)[0] == '_';
    }
  }

  /** One piece is replaced, and the filter goes on behind it. */
  lemma PieceFiltered(s: string, pos: nat, b: string, f: Signature)
    requires '_' !in b && NUL !in b && WellFormedSignature(f) && PlainName(f.name)
    requires Stands(s, pos, b) && Stands(s, pos + |b|, EncodeSignature(f, true))
    requires ParseType(s, pos + |b| + |EncodeSignature(f, true)|).Fail?
    ensures var p := pos + |b| + |EncodeSignature(f, true)|;
      pos <= p <= |s| && Filtered(s, pos) == Onto(b, Onto(PrintSignature(f), Filtered(s, p)))
  {
    hide Stands, ParseSymbol, ParseType, WellFormedSignature, EncodeSignature, PrintSignature, PlainName, Onto;
    StandsWithin(s, pos + |b|, EncodeSignature(f, true));
    SignatureRoundTrip(s, pos + |b|, f);
    SymbolStarts(s, pos + |b|, f);
    TextCopied(s, pos, b);
  }

  /** In a line of text with mangled function symbols in it, which may touch, exactly these are
      replaced by their signatures. */
  lemma {:induction false} LineFiltered(s: string, pos: nat, ps: seq<Piece>, tail: string)
    requires Filterable(ps, tail) && Stands(s, pos, Line(ps, tail)) && pos + |Line(ps, tail)| == |s|
    ensures pos <= |s| && Filtered(s, pos) == Ok(Shown(ps, tail), |s|)
    decreases |ps|
  {
    hide Stands, ParseSymbol, ParseType, Between, WellFormedSignature, EncodeSignature, PrintSignature, PlainName,
      Filtered;
    if ps == [] {
      BetweenParts(tail);
      TextCopied(s, pos, tail);
      FilteredEnd(s);
      assert tail + "" == tail;
    } else {
      var b, sym, rest := ps[0].before, EncodeSignature(ps[0].f, true), Line(ps[1..], tail);
      BetweenParts(b);
      StandsSplit(s, pos, b, sym + rest);
      StandsSplit(s, pos + |b|, sym, rest);
      var p := pos + |b| + |sym|;
      LineFiltered(s, p, ps[1..], tail);
      LineStart(ps[1..], tail);
      if rest != "" { StandsAt(s, p, rest); }
      NoType(s, p);
      PieceFiltered(s, pos, b, ps[0].f);
    }
  }

  lemma FilteredEnd(s: string)
    ensures Filtered(s, |s|) == Ok("", |s|)
  {
  }

  lemma BetweenParts(text: string)
    requires Between(text)
    ensures '_' !in text && NUL !in text
  {
  }

  lemma SymbolStarts(s: string, pos: nat, f: Signature)
    requires Stands(s, pos, EncodeSignature(f, true))
    ensures At(s, pos) == '_' && pos < |s|
  {
    assert EncodeSignature(f, true)[0] == '_';
    StandsAt(s, pos, EncodeSignature(f, true));
  }
}
