/** The parser of strings with variables, which moves a position and fills buffers, and the methods of its result. */
module InterpolationParser {
  import I = Interpolation
  import opened Interpolation

  // ---------- Several characters at a time ----------

  lemma {:induction false} PlainRun(sigil: Sigil, s: string, k: nat)
    requires 0 < k <= |s| && s[0] != BACKSLASH && !Opens(sigil, s)
    requires forall j | 0 < j < k :: s[j] != BACKSLASH && s[j] != sigil
    ensures I.Parse(sigil, s) == Glue(s[..k], I.Parse(sigil, s[k..]))
  {
    hide I.Parse, Glue;
    ParsePlain(sigil, s);
    if k > 1 {
      PlainRun(sigil, s[1..], k - 1);
      assert s[1..][k - 1..] == s[k..];
      assert [s[0]] + s[1..][..k - 1] == s[..k];
      GlueTwice([s[0]], s[1..][..k - 1], I.Parse(sigil, s[k..]));
    } else {
      assert s[..k] == [s[0]];
    }
  }

  lemma {:induction false} NameRun(s: string, k: nat)
    requires k <= |s| && forall j | 0 <= j < k :: s[j] !in NAME_SPECIAL && s[j] != BACKSLASH
    ensures ScanName(s) == InName(s[..k], ScanName(s[k..]))
  {
    if k > 0 {
      NameRun(s[1..], k - 1);
      assert s[1..][k - 1..] == s[k..];
      assert [s[0]] + s[1..][..k - 1] == s[..k];
      InNameTwice([s[0]], s[1..][..k - 1], ScanName(s[k..]));
    } else {
      assert s[..0] == "" && s[0..] == s;
      InNameNothing(ScanName(s));
    }
  }

  lemma {:induction false} DefaultRun(s: string, k: nat)
    requires k <= |s| && forall j | 0 <= j < k :: s[j] !in DEFAULT_SPECIAL && s[j] != BACKSLASH
    ensures ScanDefault(s) == InDefault(s[..k], ScanDefault(s[k..]))
  {
    if k > 0 {
      DefaultRun(s[1..], k - 1);
      assert s[1..][k - 1..] == s[k..];
      assert [s[0]] + s[1..][..k - 1] == s[..k];
      InDefaultTwice([s[0]], s[1..][..k - 1], ScanDefault(s[k..]));
    } else {
      assert s[..0] == "" && s[0..] == s;
      InDefaultNothing(ScanDefault(s));
    }
  }

  lemma InNameTwice(a: string, b: string, scan: Scan)
    ensures InName(a + b, scan) == InName(a, InName(b, scan))
  {
    if scan.Closed? {
      assert (a + b) + scan.variable.name == a + (b + scan.variable.name);
    }
  }

  lemma InDefaultTwice(a: string, b: string, scan: Scan)
    ensures InDefault(a + b, scan) == InDefault(a, InDefault(b, scan))
  {
    if scan.Closed? {
      assert (a + b) + scan.variable.fallback == a + (b + scan.variable.fallback);
    }
  }

  lemma InNameNothing(scan: Scan)
    ensures InName("", scan) == scan
  {
    if scan.Closed? {
      assert "" + scan.variable.name == scan.variable.name;
    }
  }

  lemma InDefaultNothing(scan: Scan)
    ensures InDefault("", scan) == scan
  {
    if scan.Closed? {
      assert "" + scan.variable.fallback == scan.variable.fallback;
    }
  }

  lemma StartsWith(c: char, s: string)
    ensures [c] <= s <==> s != "" && s[0] == c
  {
  }

  // ---------- One round of each loop ----------

  /** A default scanned up to `s`, with `buf` collected so far. */
  predicate DefaultSoFar(all: string, buf: string, s: string) {
    ScanDefault(all) == InDefault(buf, ScanDefault(s))
  }

  lemma DefaultStarts(all: string)
    ensures DefaultSoFar(all, "", all)
  {
    InDefaultNothing(ScanDefault(all));
  }

  lemma DefaultEscape(all: string, buf: string, s: string)
    requires DefaultSoFar(all, buf, s) && |s| > 1 && s[0] == BACKSLASH
    ensures DefaultSoFar(all, buf + [s[1..][0]], s[1..][1..])
  {
    assert s[1..][1..] == s[2..];
    InDefaultTwice(buf, [s[1]], ScanDefault(s[2..]));
  }

  lemma DefaultText(all: string, buf: string, text: string, rest: string)
    requires DefaultSoFar(all, buf, text + rest)
    requires forall j | 0 <= j < |text| :: text[j] !in DEFAULT_SPECIAL && text[j] != BACKSLASH
    ensures DefaultSoFar(all, buf + text, rest)
  {
    hide ScanDefault;
    var s := text + rest;
    assert s[..|text|] == text && s[|text|..] == rest;
    DefaultRun(s, |text|);
    InDefaultTwice(buf, text, ScanDefault(rest));
  }

  lemma DefaultCloses(all: string, buf: string, s: string)
    requires DefaultSoFar(all, buf, s) && s != "" && s[0] == CLOSE
    ensures ScanDefault(all) == Closed(Variable("", buf, true), s[1..])
  {
    assert buf + "" == buf;
  }

  lemma DefaultEnds(all: string, buf: string, s: string)
    requires DefaultSoFar(all, buf, s) && (s == "" || s == [BACKSLASH])
    ensures ScanDefault(all).Unclosed?
  {
  }

  /** A variable scanned up to `s`, still in its name, with `buf` collected so far. */
  predicate NameSoFar(all: string, buf: string, s: string) {
    ScanName(all) == InName(buf, ScanName(s))
  }

  lemma NameStarts(all: string)
    ensures NameSoFar(all, "", all)
  {
    InNameNothing(ScanName(all));
  }

  lemma NameEscape(all: string, buf: string, s: string)
    requires NameSoFar(all, buf, s) && |s| > 1 && s[0] == BACKSLASH
    ensures NameSoFar(all, buf + [s[1..][0]], s[1..][1..])
  {
    assert s[1..][1..] == s[2..];
    InNameTwice(buf, [s[1]], ScanName(s[2..]));
  }

  lemma NameText(all: string, buf: string, text: string, rest: string)
    requires NameSoFar(all, buf, text + rest)
    requires forall j | 0 <= j < |text| :: text[j] !in NAME_SPECIAL && text[j] != BACKSLASH
    ensures NameSoFar(all, buf + text, rest)
  {
    hide ScanName;
    var s := text + rest;
    assert s[..|text|] == text && s[|text|..] == rest;
    NameRun(s, |text|);
    InNameTwice(buf, text, ScanName(rest));
  }

  lemma NameDefault(all: string, buf: string, s: string)
    requires NameSoFar(all, buf, s) && s != "" && s[0] == DEFAULT
    ensures
      var scan := ScanDefault(s[1..]);
      if scan.Unclosed? then ScanName(all).Unclosed?
      else ScanName(all) == Closed(scan.variable.(name := buf + scan.variable.name), scan.rest)
  {
  }

  lemma NameCloses(all: string, buf: string, s: string)
    requires NameSoFar(all, buf, s) && s != "" && s[0] == CLOSE
    ensures ScanName(all) == Closed(Variable(buf, "", false), s[1..])
  {
    assert buf + "" == buf;
  }

  lemma NameEnds(all: string, buf: string, s: string)
    requires NameSoFar(all, buf, s) && (s == "" || s == [BACKSLASH])
    ensures ScanName(all).Unclosed? && NameSoFar(all, buf, "")
  {
  }

  /** A literal buffer, once it is appended to the result. */
  function Flushed(lit: string): seq<Part> {
    if lit == "" then [] else [Literal(lit)]
  }

  lemma GlueVariable(lit: string, v: Variable, ps: seq<Part>)
    ensures Glue(lit, [Var(v)] + ps) == Flushed(lit) + [Var(v)] + ps
  {
  }

  /** A variable scanned up to `s`; once its default is scanned only the closing brace can be next. */
  predicate VariableSoFar(all: string, name: string, fallback: string, hasDefault: bool, s: string) {
    if !hasDefault then fallback == "" && NameSoFar(all, name, s)
    else if s == "" then ScanName(all).Unclosed?
    else s[0] == CLOSE && ScanName(all) == Closed(Variable(name, fallback, true), s[1..])
  }

  lemma VariableStarts(all: string)
    ensures VariableSoFar(all, "", "", false, all)
  {
    NameStarts(all);
  }

  lemma VariableEscape(all: string, name: string, fallback: string, hasDefault: bool, s: string)
    requires VariableSoFar(all, name, fallback, hasDefault, s) && |s| > 1 && s[0] == BACKSLASH
    ensures VariableSoFar(all, name + [s[1..][0]], fallback, hasDefault, s[1..][1..])
  {
    NameEscape(all, name, s);
  }

  lemma VariableLastBackslash(all: string, name: string, fallback: string, hasDefault: bool, s: string)
    requires VariableSoFar(all, name, fallback, hasDefault, s) && s == [BACKSLASH]
    ensures VariableSoFar(all, name, fallback, hasDefault, "")
  {
    NameEnds(all, name, s);
  }

  lemma VariableDefault(all: string, name: string, fallback: string, hasDefault: bool, s: string)
    requires VariableSoFar(all, name, fallback, hasDefault, s) && s != "" && s[0] == DEFAULT
    ensures fallback == ""
    ensures
      var scan := ScanDefault(s[1..]);
      if scan.Unclosed? then ScanName(all).Unclosed?
      else ScanName(all) == Closed(scan.variable.(name := name + scan.variable.name), scan.rest)
  {
    NameDefault(all, name, s);
  }

  lemma VariableDefaultRead(all: string, name: string, fallback: string, s: string, rest: string)
    requires
      var scan := ScanDefault(s);
      if scan.Unclosed? then ScanName(all).Unclosed?
      else ScanName(all) == Closed(scan.variable.(name := name + scan.variable.name), scan.rest)
    requires rest == "" ==> ScanDefault(s).Unclosed?
    requires rest != "" ==> rest[0] == CLOSE && ScanDefault(s) == Closed(Variable("", fallback, true), rest[1..])
    ensures VariableSoFar(all, name, fallback, true, rest)
  {
    assert name + "" == name;
  }

  lemma VariableCloses(all: string, name: string, fallback: string, hasDefault: bool, s: string)
    requires VariableSoFar(all, name, fallback, hasDefault, s) && s != "" && s[0] == CLOSE
    ensures ScanName(all) == Closed(Variable(name, fallback, hasDefault), s[1..])
  {
    if !hasDefault {
      NameCloses(all, name, s);
    }
  }

  lemma VariableName(all: string, name: string, fallback: string, hasDefault: bool, text: string, rest: string)
    requires VariableSoFar(all, name, fallback, hasDefault, text + rest) && text != ""
    requires forall j | 0 <= j < |text| :: text[j] !in NAME_SPECIAL && text[j] != BACKSLASH
    ensures VariableSoFar(all, name + text, fallback, hasDefault, rest)
  {
    assert (text + rest)[0] == text[0];
    assert text[0] !in NAME_SPECIAL;
    NameText(all, name, text, rest);
  }

  lemma VariableEnds(all: string, name: string, fallback: string, hasDefault: bool)
    requires VariableSoFar(all, name, fallback, hasDefault, "")
    ensures ScanName(all).Unclosed?
  {
    if !hasDefault {
      NameEnds(all, name, "");
    }
  }

  /** Parsed up to `s`, with these parts complete and this literal collected so far. */
  predicate ParsedSoFar(sigil: Sigil, all: string, out: seq<Part>, lit: string, s: string) {
    out + Glue(lit, I.Parse(sigil, s)) == I.Parse(sigil, all)
  }

  lemma ParsedStarts(sigil: Sigil, all: string)
    ensures ParsedSoFar(sigil, all, [], "", all)
  {
  }

  lemma ParsedEscape(sigil: Sigil, all: string, out: seq<Part>, lit: string, s: string)
    requires ParsedSoFar(sigil, all, out, lit, s) && |s| > 1 && s[0] == BACKSLASH
    ensures ParsedSoFar(sigil, all, out, lit + [s[1..][0]], s[1..][1..])
  {
    assert s[1..][1..] == s[2..];
    hide I.Parse, Glue;
    ParseEscaped(sigil, s);
    GlueTwice(lit, [s[1]], I.Parse(sigil, s[2..]));
  }

  lemma ParsedLastBackslash(sigil: Sigil, all: string, out: seq<Part>, lit: string, s: string)
    requires ParsedSoFar(sigil, all, out, lit, s) && s == [BACKSLASH]
    ensures ParsedSoFar(sigil, all, out, lit + [BACKSLASH], "")
  {
    GlueTwice(lit, [BACKSLASH], []);
  }

  lemma ParsedVariable(sigil: Sigil, all: string, out: seq<Part>, lit: string, s: string)
    requires ParsedSoFar(sigil, all, out, lit, s) && Opens(sigil, s) && ScanName(s[2..]).Closed?
    ensures
      var scan := ScanName(s[2..]);
      ParsedSoFar(sigil, all, out + Flushed(lit) + [Var(scan.variable)], "", scan.rest)
  {
    hide I.Parse, Glue;
    I.ParseVariable(sigil, s);
    var scan := ScanName(s[2..]);
    var ps := I.Parse(sigil, scan.rest);
    GlueVariable(lit, scan.variable, ps);
    GlueNothing(ps);
    assert out + (Flushed(lit) + [Var(scan.variable)] + ps) == (out + Flushed(lit) + [Var(scan.variable)]) + ps;
  }

  lemma ParsedUnclosed(sigil: Sigil, all: string, out: seq<Part>, lit: string, s: string)
    requires ParsedSoFar(sigil, all, out, lit, s) && Opens(sigil, s) && ScanName(s[2..]).Unclosed?
    ensures ParsedSoFar(sigil, all, out, lit + [sigil, OPEN], s[2..])
  {
    hide I.Parse, Glue;
    I.ParseVariable(sigil, s);
    assert s[..2] == [sigil, OPEN];
    GlueTwice(lit, [sigil, OPEN], I.Parse(sigil, s[2..]));
  }

  lemma ParsedText(sigil: Sigil, all: string, out: seq<Part>, lit: string, text: string, rest: string)
    requires ParsedSoFar(sigil, all, out, lit, text + rest)
    requires text != "" && text[0] != BACKSLASH && !Opens(sigil, text + rest)
    requires forall j | 0 < j < |text| :: text[j] != BACKSLASH && text[j] != sigil
    ensures ParsedSoFar(sigil, all, out, lit + text, rest)
  {
    hide I.Parse, Glue;
    var s := text + rest;
    assert s[..|text|] == text && s[|text|..] == rest;
    PlainRun(sigil, s, |text|);
    GlueTwice(lit, text, I.Parse(sigil, rest));
  }

  lemma ParsedEnds(sigil: Sigil, all: string, out: seq<Part>, lit: string)
    requires ParsedSoFar(sigil, all, out, lit, "")
    ensures out + Flushed(lit) == I.Parse(sigil, all)
  {
  }

  lemma StartsOpening(sigil: Sigil, s: string)
    ensures [sigil, OPEN] <= s <==> Opens(sigil, s)
  {
  }

  // ---------- The parser ----------

  class Parser {
    const input: string
    const sigil: Sigil
    var pos: nat
    var litBuf: string
    var varBuf: string
    var defBuf: string
    var out: seq<Part>

    constructor (sigil: Sigil, input: string)
      ensures this.input == input && this.sigil == sigil
      ensures pos == 0 && litBuf == "" && out == []
    {
      this.input, this.sigil := input, sigil;
      pos, litBuf, varBuf, defBuf, out := 0, "", "", "", [];
    }

    predicate Valid()
      reads this
    {
      pos <= |input|
    }

    /** What is still to be read. */
    function Rest(): string
      requires Valid()
      reads this
    {
      input[pos..]
    }

    method Parse()
      requires pos == 0 && litBuf == "" && out == []
      modifies this
      ensures out == I.Parse(sigil, input)
    {
      hide ParsedSoFar, ScanName, I.Parse;
      assert input[0..] == input;
      ParsedStarts(sigil, input);
      while pos < |input|
        invariant Valid() && ParsedSoFar(sigil, input, out, litBuf, Rest())
        decreases |input| - pos
      {
        ghost var s, o, lit := Rest(), out, litBuf;
        StartsWith(BACKSLASH, s);
        StartsOpening(sigil, s);
        var backslash := NextToken([BACKSLASH]);
        if backslash {
          ParseBackslash();
          if |s| > 1 {
            ParsedEscape(sigil, input, o, lit, s);
          } else {
            ParsedLastBackslash(sigil, input, o, lit, s);
          }
        } else {
          var begins := NextToken([sigil, OPEN]);
          if begins {
            ParseVariable();
            if ScanName(s[2..]).Closed? {
              ParsedVariable(sigil, input, o, lit, s);
            } else {
              ParsedUnclosed(sigil, input, o, lit, s);
            }
          } else {
            var text := NextBytesUntilAnyOf([sigil, BACKSLASH]);
            AppendLiteral(text);
            ParsedText(sigil, input, o, lit, text, Rest());
          }
        }
      }
      assert Rest() == "";
      ParsedEnds(sigil, input, out, litBuf);
      AppendBuffer();
    }

    /** After a backslash the next character stands for itself; a backslash at the end is kept. */
    method ParseBackslash()
      requires Valid()
      modifies this
      ensures Valid() && out == old(out)
      ensures old(Rest()) == "" ==> litBuf == old(litBuf) + [BACKSLASH] && pos == old(pos)
      ensures old(Rest()) != "" ==>
        litBuf == old(litBuf) + [old(Rest())[0]] && Rest() == old(Rest())[1..] && pos == old(pos) + 1
    {
      if pos == |input| {
        AppendLiteral([BACKSLASH]);
        return;
      }
      var c := NextByte();
      AppendLiteral([c]);
    }

    /** Appends the variable that is closed, or else takes its opening token as text and returns to where it was. */
    method ParseVariable()
      requires Valid()
      modifies this
      ensures Valid()
      ensures
        var scan := ScanName(old(Rest()));
        if scan.Closed? then
          out == old(out) + Flushed(old(litBuf)) + [Var(scan.variable)] && litBuf == "" && Rest() == scan.rest
        else
          out == old(out) && litBuf == old(litBuf) + [sigil, OPEN] && pos == old(pos)
    {
      hide ScanName, ScanDefault, VariableSoFar, Flushed;
      var start := pos;
      var hasDefault := false;
      varBuf, defBuf := "", "";
      ghost var all := Rest();
      VariableStarts(all);
      while pos < |input|
        invariant Valid() && out == old(out) && litBuf == old(litBuf)
        invariant VariableSoFar(all, varBuf, defBuf, hasDefault, Rest())
        decreases |input| - pos, !hasDefault
      {
        ghost var s := Rest();
        StartsWith(BACKSLASH, s);
        StartsWith(DEFAULT, s);
        StartsWith(CLOSE, s);
        var backslash := NextToken([BACKSLASH]);
        if backslash {
          if pos == |input| {
            VariableLastBackslash(all, varBuf, defBuf, hasDefault, s);
            continue;
          }
          var c := NextByte();
          VariableEscape(all, varBuf, defBuf, hasDefault, s);
          varBuf := varBuf + [c];
        } else {
          var dash := NextToken([DEFAULT]);
          if dash {
            VariableDefault(all, varBuf, defBuf, hasDefault, s);
            hasDefault := true;
            ParseDefault();
            VariableDefaultRead(all, varBuf, defBuf, s[1..], Rest());
          } else {
            var end := NextToken([CLOSE]);
            if end {
              VariableCloses(all, varBuf, defBuf, hasDefault, s);
              AppendVariable(Variable(varBuf, defBuf, hasDefault));
              return;
            }
            var text := NextBytesUntilAnyOf([CLOSE, DEFAULT, BACKSLASH]);
            VariableName(all, varBuf, defBuf, hasDefault, text, Rest());
            varBuf := varBuf + text;
          }
        }
      }
      assert Rest() == "";
      VariableEnds(all, varBuf, defBuf, hasDefault);
      AppendLiteral([sigil, OPEN]);
      pos := start;
    }

    /** Reads a default up to the closing brace, which is left to be read again. */
    method ParseDefault()
      requires Valid() && defBuf == ""
      modifies `pos, `defBuf
      ensures Valid() && pos >= old(pos)
      ensures pos == |input| ==> ScanDefault(old(Rest())).Unclosed?
      ensures pos < |input| ==>
        Rest()[0] == CLOSE && ScanDefault(old(Rest())) == Closed(Variable("", defBuf, true), Rest()[1..])
    {
      hide ScanDefault, InDefault, DefaultSoFar;
      ghost var all := Rest();
      DefaultStarts(all);
      while pos < |input|
        invariant Valid() && pos >= old(pos)
        invariant DefaultSoFar(all, defBuf, Rest())
        decreases |input| - pos
      {
        ghost var s := Rest();
        StartsWith(BACKSLASH, s);
        StartsWith(DEFAULT, s);
        StartsWith(CLOSE, s);
        var backslash := NextToken([BACKSLASH]);
        if backslash {
          if pos == |input| {
            DefaultEnds(all, defBuf, s);
            return;
          }
          var c := NextByte();
          DefaultEscape(all, defBuf, s);
          defBuf := defBuf + [c];
        } else {
          var end := NextToken([CLOSE]);
          if end {
            DefaultCloses(all, defBuf, s);
            pos := pos - 1;
            return;
          }
          var text := NextBytesUntilAnyOf([CLOSE, BACKSLASH]);
          DefaultText(all, defBuf, text, Rest());
          defBuf := defBuf + text;
        }
      }
      DefaultEnds(all, defBuf, Rest());
    }

    method NextByte() returns (c: char)
      requires Valid() && pos < |input|
      modifies `pos
      ensures Valid() && pos == old(pos) + 1
      ensures c == old(Rest())[0] && Rest() == old(Rest())[1..]
    {
      pos := pos + 1;
      c := input[pos - 1];
    }

    /** At least one character, and on to the first of the given ones. */
    method NextBytesUntilAnyOf(stops: seq<char>) returns (text: string)
      requires Valid() && pos < |input|
      modifies `pos
      ensures Valid() && pos == old(pos) + |text|
      ensures text != "" && old(Rest()) == text + Rest()
      ensures forall k | 0 < k < |text| :: text[k] !in stops
      ensures Rest() != "" ==> Rest()[0] in stops
    {
      var start := pos;
      pos := pos + 1;
      while pos < |input|
        invariant start < pos <= |input|
        invariant forall k | start < k < pos :: input[k] !in stops
      {
        for n := 0 to |stops|
          invariant forall m | 0 <= m < n :: input[pos] != stops[m]
        {
          if input[pos] == stops[n] {
            return input[start..pos];
          }
        }
        pos := pos + 1;
      }
      return input[start..pos];
    }

    /** Moves past the token if it is next. */
    method NextToken(token: string) returns (found: bool)
      requires Valid()
      modifies `pos
      ensures Valid() && (found <==> token <= old(Rest()))
      ensures pos == if found then old(pos) + |token| else old(pos)
      ensures found ==> Rest() == old(Rest())[|token|..]
    {
      found := token <= input[pos..];
      if found {
        pos := pos + |token|;
      }
    }

    method AppendVariable(v: Variable)
      modifies `out, `litBuf
      ensures out == old(out) + Flushed(old(litBuf)) + [Var(v)] && litBuf == ""
    {
      AppendBuffer();
      out := out + [Var(v)];
    }

    method AppendLiteral(s: string)
      modifies `litBuf
      ensures litBuf == old(litBuf) + s
    {
      litBuf := litBuf + s;
    }

    method AppendBuffer()
      modifies `out, `litBuf
      ensures out == old(out) + Flushed(old(litBuf)) && litBuf == ""
    {
      if |litBuf| > 0 {
        out := out + [Literal(litBuf)];
        litBuf := "";
      }
    }
  }

  method Parse(s: string) returns (ps: seq<Part>)
    ensures ps == I.Parse('$', s)
  {
    var p := new Parser('$', s);
    p.Parse();
    ps := p.out;
  }

  method ParsePercent(s: string) returns (ps: seq<Part>)
    ensures ps == I.Parse('%', s)
  {
    var p := new Parser('%', s);
    p.Parse();
    ps := p.out;
  }

  /** The text with every variable replaced by what it is mapped to. */
  method Interpolate(ps: seq<Part>, mapping: Variable -> string) returns (buf: string)
    ensures buf == I.Interpolate(ps, mapping)
    ensures exists cuts :: Fills(ps, mapping, buf, cuts)
  {
    buf := "";
    ghost var cuts: seq<nat> := [0];
    for i := 0 to |ps|
      invariant buf == I.Interpolate(ps[..i], mapping)
      invariant Fills(ps[..i], mapping, buf, cuts)
    {
      hide Fills;
      assert ps[..i + 1] == ps[..i] + [ps[i]];
      InterpolateConcat(ps[..i], [ps[i]], mapping);
      ghost var before := buf;
      match ps[i] {
        case Literal(text) => buf := buf + text;
        case Var(v) => buf := buf + mapping(v);
      }
      FillsAppend(ps[..i], mapping, before, cuts, ps[i], buf[|before|..]);
      assert buf == before + buf[|before|..];
      cuts := cuts + [|buf|];
    }
    assert ps[..|ps|] == ps;
  }

  method HasVars(ps: seq<Part>) returns (r: bool)
    ensures r <==> exists i | 0 <= i < |ps| :: ps[i].Var?
  {
    for i := 0 to |ps|
      invariant forall j | 0 <= j < i :: !ps[j].Var?
    {
      if ps[i].Var? {
        return true;
      }
    }
    return false;
  }
}
