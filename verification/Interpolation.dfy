/**
 Strings with variables such as ${NAME-default}: what a string means, and how parts are written as a string.
 The parser only compares characters with its tokens, so characters stand for bytes.
 */
module Interpolation {
  datatype Variable = Variable(name: string, fallback: string, hasDefault: bool)

  datatype Part = Literal(text: string) | Var(variable: Variable)

  const BACKSLASH := '\\'
  const OPEN := '{'
  const CLOSE := '}'
  const DEFAULT := '-'

  /** The character that starts a variable: one for each of the two notations. */
  type Sigil = c: char | c == '$' || c == '%' witness '$'

  // ---------- What a string means ----------

  /** A variable read up to its closing brace, and what follows it; or the end of the string came first. */
  datatype Scan = Unclosed | Closed(variable: Variable, rest: string)

  /** A variable after its opening token. */
  function ScanName(s: string): (r: Scan)
    ensures r.Closed? ==> |r.rest| < |s|
  {
    if s == "" then Unclosed
    else if s[0] == BACKSLASH then
      if |s| == 1 then Unclosed else InName([s[1]], ScanName(s[2..]))
    else if s[0] == DEFAULT then ScanDefault(s[1..])
    else if s[0] == CLOSE then Closed(Variable("", "", false), s[1..])
    else InName([s[0]], ScanName(s[1..]))
  }

  /** A variable after the token that starts its default. */
  function ScanDefault(s: string): (r: Scan)
    ensures r.Closed? ==> |r.rest| < |s|
  {
    if s == "" then Unclosed
    else if s[0] == BACKSLASH then
      if |s| == 1 then Unclosed else InDefault([s[1]], ScanDefault(s[2..]))
    else if s[0] == CLOSE then Closed(Variable("", "", true), s[1..])
    else InDefault([s[0]], ScanDefault(s[1..]))
  }

  function InName(t: string, scan: Scan): (r: Scan)
    ensures r.Closed? <==> scan.Closed?
    ensures r.Closed? ==> r.rest == scan.rest
  {
    if scan.Unclosed? then scan else scan.(variable := scan.variable.(name := t + scan.variable.name))
  }

  function InDefault(t: string, scan: Scan): (r: Scan)
    ensures r.Closed? <==> scan.Closed?
    ensures r.Closed? ==> r.rest == scan.rest
  {
    if scan.Unclosed? then scan else scan.(variable := scan.variable.(fallback := t + scan.variable.fallback))
  }

  /** Literal text in front of parts joins a literal that is already there. */
  function Glue(t: string, ps: seq<Part>): seq<Part> {
    if t == "" then ps
    else if ps != [] && ps[0].Literal? then [Literal(t + ps[0].text)] + ps[1..]
    else [Literal(t)] + ps
  }

  predicate Opens(sigil: Sigil, s: string) {
    |s| >= 2 && s[0] == sigil && s[1] == OPEN
  }

  function Parse(sigil: Sigil, s: string): seq<Part>
    decreases |s|
  {
    if s == "" then []
    else if s[0] == BACKSLASH then
      if |s| == 1 then Glue(s, []) else Glue([s[1]], Parse(sigil, s[2..]))
    else if Opens(sigil, s) then
      match ScanName(s[2..])
      case Closed(v, rest) => [Var(v)] + Parse(sigil, rest)
      case Unclosed => Glue(s[..2], Parse(sigil, s[2..]))
    else Glue(s[..1], Parse(sigil, s[1..]))
  }

  lemma ParseEscaped(sigil: Sigil, s: string)
    requires |s| > 1 && s[0] == BACKSLASH
    ensures Parse(sigil, s) == Glue([s[1]], Parse(sigil, s[2..]))
  {
  }

  lemma ParsePlain(sigil: Sigil, s: string)
    requires s != "" && s[0] != BACKSLASH && !Opens(sigil, s)
    ensures Parse(sigil, s) == Glue([s[0]], Parse(sigil, s[1..]))
  {
    assert s[..1] == [s[0]];
  }

  lemma ParseVariable(sigil: Sigil, s: string)
    requires Opens(sigil, s)
    ensures
      var scan := ScanName(s[2..]);
      Parse(sigil, s) ==
        if scan.Closed? then [Var(scan.variable)] + Parse(sigil, scan.rest) else Glue(s[..2], Parse(sigil, s[2..]))
  {
  }

  // ---------- The result is in normal form ----------

  /** No literal is empty and no two literals are adjacent. */
  predicate Normal(ps: seq<Part>) {
    && (forall i | 0 <= i < |ps| :: ps[i].Literal? ==> ps[i].text != "")
    && (forall i | 0 < i < |ps| :: ps[i].Literal? ==> ps[i - 1].Var?)
  }

  lemma GlueNormal(t: string, ps: seq<Part>)
    requires Normal(ps)
    ensures Normal(Glue(t, ps))
  {
  }

  lemma VariableNormal(v: Variable, ps: seq<Part>)
    requires Normal(ps)
    ensures Normal([Var(v)] + ps)
  {
  }

  lemma {:induction false} ParseNormal(sigil: Sigil, s: string)
    ensures Normal(Parse(sigil, s))
    decreases |s|
  {
    if |s| > 1 || (s != "" && s[0] != BACKSLASH) {
      hide Parse, Glue, Normal, ScanName;
      if s[0] == BACKSLASH {
        ParseEscaped(sigil, s);
        ParseNormal(sigil, s[2..]);
        GlueNormal([s[1]], Parse(sigil, s[2..]));
      } else if Opens(sigil, s) {
        ParseVariable(sigil, s);
        var scan := ScanName(s[2..]);
        if scan.Closed? {
          ParseNormal(sigil, scan.rest);
          VariableNormal(scan.variable, Parse(sigil, scan.rest));
        } else {
          ParseNormal(sigil, s[2..]);
          GlueNormal(s[..2], Parse(sigil, s[2..]));
        }
      } else {
        ParsePlain(sigil, s);
        ParseNormal(sigil, s[1..]);
        GlueNormal([s[0]], Parse(sigil, s[1..]));
      }
    }
  }

  lemma GlueTwice(a: string, b: string, ps: seq<Part>)
    ensures Glue(a + b, ps) == Glue(a, Glue(b, ps))
  {
    if b == "" {
      assert a + b == a;
    } else if a == "" {
      assert a + b == b;
    } else if ps != [] && ps[0].Literal? {
      assert (a + b) + ps[0].text == a + (b + ps[0].text);
    }
  }

  // ---------- Parsing undoes writing ----------

  /**
   A text that spells a literal: any character may be written with a backslash in front; a backslash must be,
   and so must the sigil where the opening brace follows.
   */
  predicate SpellsLiteral(sigil: Sigil, s: string, t: string)
    decreases |s|
  {
    if s == "" then t == ""
    else if s[0] == BACKSLASH then |s| > 1 && t != "" && t[0] == s[1] && SpellsLiteral(sigil, s[2..], t[1..])
    else t != "" && t[0] == s[0] && !Opens(sigil, s) && SpellsLiteral(sigil, s[1..], t[1..])
  }

  /** A text that spells a name or a default: the given special characters must be escaped, others may be. */
  predicate Spells(special: set<char>, s: string, t: string)
    decreases |s|
  {
    if s == "" then t == ""
    else if s[0] == BACKSLASH then |s| > 1 && t != "" && t[0] == s[1] && Spells(special, s[2..], t[1..])
    else t != "" && t[0] == s[0] && s[0] !in special && Spells(special, s[1..], t[1..])
  }

  const NAME_SPECIAL := {CLOSE, DEFAULT}
  const DEFAULT_SPECIAL := {CLOSE}

  ghost predicate SpellsPart(sigil: Sigil, s: string, p: Part) {
    match p
    case Literal(t) => SpellsLiteral(sigil, s, t)
    case Var(v) =>
      exists name, fallback ::
        && Spells(NAME_SPECIAL, name, v.name)
        && Spells(DEFAULT_SPECIAL, fallback, v.fallback)
        && (!v.hasDefault ==> fallback == "")
        && s == VariableText(sigil, name, fallback, v.hasDefault)
  }

  function VariableText(sigil: Sigil, name: string, fallback: string, hasDefault: bool): string {
    [sigil, OPEN] + VariableBody(name, fallback, hasDefault)
  }

  function VariableBody(name: string, fallback: string, hasDefault: bool): string {
    name + (if hasDefault then [DEFAULT] + fallback else "") + [CLOSE]
  }

  /** Any of the texts that parts may be written as. */
  ghost predicate SpellsParts(sigil: Sigil, s: string, ps: seq<Part>)
    decreases |ps|
  {
    if ps == [] then s == ""
    else exists a, b :: s == a + b && SpellsPart(sigil, a, ps[0]) && SpellsParts(sigil, b, ps[1..])
  }

  lemma {:induction false} LiteralParses(sigil: Sigil, a: string, t: string, b: string)
    requires SpellsLiteral(sigil, a, t) && (b == "" || b[0] == sigil)
    ensures Parse(sigil, a + b) == Glue(t, Parse(sigil, b))
    decreases |a|
  {
    hide Parse, Glue;
    var s := a + b;
    if a == "" {
      assert s == b;
      GlueNothing(Parse(sigil, b));
    } else {
      var k := if a[0] == BACKSLASH then 2 else 1;
      assert s[k..] == a[k..] + b && s[k - 1] == a[k - 1];
      LiteralParses(sigil, a[k..], t[1..], b);
      if k == 2 {
        ParseEscaped(sigil, s);
      } else {
        StillPlain(sigil, a, b);
        ParsePlain(sigil, s);
      }
      GlueTwice([t[0]], t[1..], Parse(sigil, b));
      assert t == [t[0]] + t[1..];
    }
  }

  lemma GlueNothing(ps: seq<Part>)
    ensures Glue("", ps) == ps
  {
  }

  lemma StillPlain(sigil: Sigil, a: string, b: string)
    requires a != "" && !Opens(sigil, a) && (b == "" || b[0] == sigil)
    ensures !Opens(sigil, a + b)
  {
    var s := a + b;
    if |a| > 1 {
      assert s[0] == a[0] && s[1] == a[1];
    } else if b != "" {
      assert s[1] == b[0];
    }
  }

  lemma {:induction false} NameScans(n: string, name: string, rest: string)
    requires Spells(NAME_SPECIAL, n, name)
    ensures ScanName(n + rest) == InName(name, ScanName(rest))
    decreases |n|
  {
    var s := n + rest;
    if n == "" {
      assert s == rest;
    } else {
      var k := if n[0] == BACKSLASH then 2 else 1;
      assert s[k..] == n[k..] + rest;
      NameScans(n[k..], name[1..], rest);
      assert ScanName(s) == InName([name[0]], ScanName(s[k..]));
      assert name == [name[0]] + name[1..];
      var scan := ScanName(rest);
      if scan.Closed? {
        assert [name[0]] + (name[1..] + scan.variable.name) == name + scan.variable.name;
      }
    }
  }

  lemma {:induction false} DefaultScans(d: string, fallback: string, rest: string)
    requires Spells(DEFAULT_SPECIAL, d, fallback)
    ensures ScanDefault(d + rest) == InDefault(fallback, ScanDefault(rest))
    decreases |d|
  {
    var s := d + rest;
    if d == "" {
      assert s == rest;
    } else {
      var k := if d[0] == BACKSLASH then 2 else 1;
      assert s[k..] == d[k..] + rest;
      DefaultScans(d[k..], fallback[1..], rest);
      assert ScanDefault(s) == InDefault([fallback[0]], ScanDefault(s[k..]));
      assert fallback == [fallback[0]] + fallback[1..];
      var scan := ScanDefault(rest);
      if scan.Closed? {
        assert [fallback[0]] + (fallback[1..] + scan.variable.fallback) == fallback + scan.variable.fallback;
      }
    }
  }

  lemma VariableScans(v: Variable, n: string, d: string, rest: string)
    requires Spells(NAME_SPECIAL, n, v.name) && Spells(DEFAULT_SPECIAL, d, v.fallback)
    requires !v.hasDefault ==> d == ""
    ensures ScanName(VariableBody(n, d, v.hasDefault) + rest) == Closed(v, rest)
  {
    var end := [CLOSE] + rest;
    assert end[1..] == rest;
    if v.hasDefault {
      var tail := [DEFAULT] + (d + end);
      assert n + ([DEFAULT] + d) + [CLOSE] + rest == n + tail;
      NameScans(n, v.name, tail);
      assert tail[1..] == d + end;
      DefaultScans(d, v.fallback, end);
      assert ScanDefault(end) == Closed(Variable("", "", true), rest);
      assert v.fallback + "" == v.fallback;
    } else {
      assert n + "" + [CLOSE] + rest == n + end;
      NameScans(n, v.name, end);
      assert ScanName(end) == Closed(Variable("", "", false), rest);
    }
    assert v.name + "" == v.name;
  }

  /** Whatever of its spellings parts in normal form are written as, parsing gives exactly these parts back. */
  lemma {:induction false} ParseUndoesWriting(sigil: Sigil, s: string, ps: seq<Part>)
    requires Normal(ps) && SpellsParts(sigil, s, ps)
    ensures Parse(sigil, s) == ps
    decreases |ps|
  {
    if ps != [] {
      var a, b :| s == a + b && SpellsPart(sigil, a, ps[0]) && SpellsParts(sigil, b, ps[1..]);
      NormalTail(ps);
      ParseUndoesWriting(sigil, b, ps[1..]);
      if ps[0].Literal? {
        StartsWithVariable(sigil, b, ps[1..]);
      }
      hide Parse, SpellsParts, SpellsPart, Normal;
      PartParses(sigil, a, ps[0], b);
      assert ps == [ps[0]] + ps[1..];
    }
  }

  lemma NormalTail(ps: seq<Part>)
    requires Normal(ps) && ps != []
    ensures Normal(ps[1..])
    ensures ps[0].Literal? ==> ps[0].text != "" && (ps[1..] != [] ==> ps[1..][0].Var?)
  {
  }

  lemma PartParses(sigil: Sigil, a: string, p: Part, b: string)
    requires SpellsPart(sigil, a, p)
    requires p.Literal? ==> p.text != "" && (b == "" || b[0] == sigil)
    requires var ps := Parse(sigil, b); p.Literal? && ps != [] ==> ps[0].Var?
    ensures Parse(sigil, a + b) == [p] + Parse(sigil, b)
  {
    hide Parse;
    if p.Literal? {
      LiteralParses(sigil, a, p.text, b);
    } else {
      hide SpellsPart;
      VariableParses(sigil, a, p.variable, b);
    }
  }

  lemma StartsWithVariable(sigil: Sigil, s: string, ps: seq<Part>)
    requires SpellsParts(sigil, s, ps) && (ps != [] ==> ps[0].Var?)
    ensures s == "" || s[0] == sigil
  {
  }

  lemma VariableParses(sigil: Sigil, a: string, v: Variable, b: string)
    requires SpellsPart(sigil, a, Var(v))
    ensures Parse(sigil, a + b) == [Var(v)] + Parse(sigil, b)
  {
    var n, d :|
      && Spells(NAME_SPECIAL, n, v.name) && Spells(DEFAULT_SPECIAL, d, v.fallback)
      && (!v.hasDefault ==> d == "") && a == VariableText(sigil, n, d, v.hasDefault);
    hide Parse, ScanName, Spells, VariableBody;
    VariableScans(v, n, d, b);
    AfterOpening(sigil, VariableBody(n, d, v.hasDefault), b);
    ParseVariable(sigil, a + b);
  }

  lemma AfterOpening(sigil: Sigil, body: string, b: string)
    ensures Opens(sigil, [sigil, OPEN] + body + b) && ([sigil, OPEN] + body + b)[2..] == body + b
  {
  }

  // ---------- A way to write any parts ----------

  function Escape(special: set<char>, t: string): string {
    if t == "" then ""
    else (if t[0] == BACKSLASH || t[0] in special then [BACKSLASH, t[0]] else [t[0]]) + Escape(special, t[1..])
  }

  function WritePart(sigil: Sigil, p: Part): string {
    match p
    case Literal(t) => Escape({sigil}, t)
    case Var(v) =>
      VariableText(sigil, Escape(NAME_SPECIAL, v.name), Escape(DEFAULT_SPECIAL, v.fallback), v.hasDefault)
  }

  function Write(sigil: Sigil, ps: seq<Part>): string {
    if ps == [] then "" else WritePart(sigil, ps[0]) + Write(sigil, ps[1..])
  }

  /** Only a variable with a default has default text. */
  predicate Sensible(ps: seq<Part>) {
    forall i | 0 <= i < |ps| :: ps[i].Var? && !ps[i].variable.hasDefault ==> ps[i].variable.fallback == ""
  }

  lemma {:induction false} EscapeSpells(special: set<char>, t: string)
    ensures Spells(special, Escape(special, t), t)
  {
    if t != "" {
      EscapeSpells(special, t[1..]);
      var e := Escape(special, t);
      var k := if t[0] == BACKSLASH || t[0] in special then 2 else 1;
      assert e[k..] == Escape(special, t[1..]);
    }
  }

  lemma {:induction false} EscapeSpellsLiteral(sigil: Sigil, t: string)
    ensures SpellsLiteral(sigil, Escape({sigil}, t), t)
  {
    if t != "" {
      EscapeSpellsLiteral(sigil, t[1..]);
      var e := Escape({sigil}, t);
      var k := if t[0] == BACKSLASH || t[0] == sigil then 2 else 1;
      assert e[k..] == Escape({sigil}, t[1..]);
    }
  }

  lemma WritePartSpells(sigil: Sigil, p: Part)
    requires Sensible([p])
    ensures SpellsPart(sigil, WritePart(sigil, p), p)
  {
    assert [p][0] == p;
    match p
    case Literal(t) => EscapeSpellsLiteral(sigil, t);
    case Var(v) =>
      EscapeSpells(NAME_SPECIAL, v.name);
      EscapeSpells(DEFAULT_SPECIAL, v.fallback);
      hide Spells;
  }

  lemma {:induction false} WriteSpells(sigil: Sigil, ps: seq<Part>)
    requires Sensible(ps)
    ensures SpellsParts(sigil, Write(sigil, ps), ps)
  {
    if ps != [] {
      WritePartSpells(sigil, ps[0]);
      WriteSpells(sigil, ps[1..]);
      hide SpellsPart;
    }
  }

  /** Writing with escapes and parsing is the identity, for all names, defaults and literals. */
  lemma ParseUndoesWrite(sigil: Sigil, ps: seq<Part>)
    requires Normal(ps) && Sensible(ps)
    ensures Parse(sigil, Write(sigil, ps)) == ps
  {
    hide Parse, Write, SpellsParts;
    WriteSpells(sigil, ps);
    ParseUndoesWriting(sigil, Write(sigil, ps), ps);
  }

  /** What a parser returns can be written and parsed again, so parsing a second time changes nothing. */
  lemma ParseIsStable(sigil: Sigil, s: string)
    ensures Parse(sigil, Write(sigil, Parse(sigil, s))) == Parse(sigil, s)
  {
    hide Parse, Write;
    ParseNormal(sigil, s);
    ParseSensible(sigil, s);
    ParseUndoesWrite(sigil, Parse(sigil, s));
  }

  lemma {:induction false} ScanSensible(s: string)
    ensures ScanName(s).Closed? && !ScanName(s).variable.hasDefault ==> ScanName(s).variable.fallback == ""
    ensures ScanDefault(s).Closed? ==> ScanDefault(s).variable.hasDefault
    decreases |s|
  {
    if s != "" && (s[0] != BACKSLASH || |s| > 1) {
      ScanSensible(if s[0] == BACKSLASH then s[2..] else s[1..]);
    }
  }

  lemma {:induction false} ParseSensible(sigil: Sigil, s: string)
    ensures Sensible(Parse(sigil, s))
    decreases |s|
  {
    if |s| > 1 || (s != "" && s[0] != BACKSLASH) {
      hide Parse, ScanName;
      if s[0] == BACKSLASH {
        ParseEscaped(sigil, s);
        ParseSensible(sigil, s[2..]);
      } else if Opens(sigil, s) {
        ParseVariable(sigil, s);
        var scan := ScanName(s[2..]);
        ScanSensible(s[2..]);
        ParseSensible(sigil, if scan.Closed? then scan.rest else s[2..]);
      } else {
        ParsePlain(sigil, s);
        ParseSensible(sigil, s[1..]);
      }
    }
  }

  // ---------- A variable that is not closed ----------

  /** No closing brace without a backslash is left. A backslash takes the next character along in every mode. */
  predicate NeverCloses(s: string)
    decreases |s|
  {
    if s == "" then true
    else if s[0] == BACKSLASH then |s| == 1 || NeverCloses(s[2..])
    else s[0] != CLOSE && NeverCloses(s[1..])
  }

  lemma {:induction false} UnclosedMeansNeverCloses(s: string)
    ensures ScanName(s).Unclosed? <==> NeverCloses(s)
    ensures ScanDefault(s).Unclosed? <==> NeverCloses(s)
    decreases |s|
  {
    if s != "" && (s[0] != BACKSLASH || |s| > 1) {
      UnclosedMeansNeverCloses(if s[0] == BACKSLASH then s[2..] else s[1..]);
    }
  }

  /** The text without the backslashes that escape something. */
  function Unescape(s: string): string
    decreases |s|
  {
    if s == "" then ""
    else if s[0] == BACKSLASH then if |s| == 1 then s else [s[1]] + Unescape(s[2..])
    else [s[0]] + Unescape(s[1..])
  }

  lemma {:induction false} UnclosedTail(sigil: Sigil, s: string)
    requires NeverCloses(s)
    ensures Parse(sigil, s) == Glue(Unescape(s), [])
    decreases |s|
  {
    if |s| > 1 || (s != "" && s[0] != BACKSLASH) {
      hide Parse, Glue, ScanName;
      if s[0] == BACKSLASH {
        ParseEscaped(sigil, s);
        UnclosedTail(sigil, s[2..]);
        GlueTwice([s[1]], Unescape(s[2..]), []);
      } else if Opens(sigil, s) {
        UnclosedTail(sigil, s[2..]);
        UnclosedOpening(sigil, s);
      } else {
        ParsePlain(sigil, s);
        UnclosedTail(sigil, s[1..]);
        GlueTwice([s[0]], Unescape(s[1..]), []);
      }
    }
  }

  lemma UnclosedOpening(sigil: Sigil, s: string)
    requires Opens(sigil, s) && NeverCloses(s[2..]) && Parse(sigil, s[2..]) == Glue(Unescape(s[2..]), [])
    ensures Parse(sigil, s) == Glue(Unescape(s), [])
  {
    ParseVariable(sigil, s);
    UnclosedMeansNeverCloses(s[2..]);
    GlueTwice(s[..2], Unescape(s[2..]), []);
    assert s[1..][1..] == s[2..];
    assert Unescape(s) == s[..2] + Unescape(s[2..]);
  }

  /** Once a variable is not closed no later one is either, and everything from there on is one literal. */
  lemma UnclosedVariableEndsAll(sigil: Sigil, s: string)
    requires Opens(sigil, s) && ScanName(s[2..]).Unclosed?
    ensures Parse(sigil, s) == [Literal([sigil, OPEN] + Unescape(s[2..]))]
  {
    hide Parse;
    UnclosedMeansNeverCloses(s[2..]);
    UnclosedTail(sigil, s[2..]);
    ParseVariable(sigil, s);
    GlueTwice(s[..2], Unescape(s[2..]), []);
    assert s[..2] == [sigil, OPEN];
  }

  /** A backslash that is not the last character, so that it escapes the next one. */
  predicate HasEscape(s: string) {
    exists i | 0 <= i < |s| - 1 :: s[i] == BACKSLASH
  }

  lemma {:induction false} UnescapeKeeps(s: string)
    ensures |Unescape(s)| <= |s|
    ensures HasEscape(s) <==> |Unescape(s)| < |s|
    ensures !HasEscape(s) ==> Unescape(s) == s
    decreases |s|
  {
    if s != "" && s[0] != BACKSLASH {
      var rest := s[1..];
      UnescapeKeeps(rest);
      assert s == [s[0]] + rest;
      if i :| 0 <= i < |s| - 1 && s[i] == BACKSLASH {
        assert rest[i - 1] == BACKSLASH;
      }
      if i :| 0 <= i < |rest| - 1 && rest[i] == BACKSLASH {
        assert s[i + 1] == BACKSLASH;
      }
    } else if |s| > 1 {
      UnescapeKeeps(s[2..]);
      assert s[0] == BACKSLASH;
    }
  }

  /** The text of a variable that is not closed stays as it is exactly when nothing in it is escaped. */
  lemma UnclosedIsKept(sigil: Sigil, s: string)
    requires Opens(sigil, s) && ScanName(s[2..]).Unclosed?
    ensures Parse(sigil, s) == [Literal(s)] <==> !HasEscape(s[2..])
  {
    hide Parse, ScanName, HasEscape;
    UnclosedVariableEndsAll(sigil, s);
    UnescapeKeeps(s[2..]);
    var kept := [sigil, OPEN] + Unescape(s[2..]);
    assert s == [sigil, OPEN] + s[2..];
    assert |kept| == 2 + |Unescape(s[2..])|;
  }

  // ---------- Putting values in ----------

  function Interpolate(ps: seq<Part>, mapping: Variable -> string): string {
    if ps == [] then ""
    else (if ps[0].Literal? then ps[0].text else mapping(ps[0].variable)) + Interpolate(ps[1..], mapping)
  }

  /** An escaped text stands for itself, whatever the variables are mapped to. */
  lemma {:induction false} EscapedIsLiteral(sigil: Sigil, t: string, mapping: Variable -> string)
    ensures Interpolate(Parse(sigil, Escape({sigil}, t)), mapping) == t
  {
    hide Parse;
    EscapeSpellsLiteral(sigil, t);
    LiteralParses(sigil, Escape({sigil}, t), t, "");
    assert Escape({sigil}, t) + "" == Escape({sigil}, t);
    ParseNothing(sigil);
  }

  lemma ParseNothing(sigil: Sigil)
    ensures Parse(sigil, "") == []
  {
  }

  lemma {:induction false} InterpolateConcat(a: seq<Part>, b: seq<Part>, mapping: Variable -> string)
    ensures Interpolate(a + b, mapping) == Interpolate(a, mapping) + Interpolate(b, mapping)
  {
    if a == [] {
      assert a + b == b;
    } else {
      assert (a + b)[1..] == a[1..] + b;
      InterpolateConcat(a[1..], b, mapping);
    }
  }

  /** A part is put in between two positions: a literal's text, or what a variable is mapped to. */
  predicate PutIn(p: Part, mapping: Variable -> string, buf: string, from: nat, to: nat) {
    && from <= to <= |buf|
    && (p.Literal? ==> buf[from..to] == p.text)
    && (p.Var? ==> buf[from..to] == mapping(p.variable))
  }

  /** The text falls into consecutive pieces, one for each part. */
  ghost predicate Fills(ps: seq<Part>, mapping: Variable -> string, buf: string, cuts: seq<nat>) {
    && |cuts| == |ps| + 1 && cuts[0] == 0 && cuts[|ps|] == |buf|
    && forall i, j | 0 <= i < |ps| && j == i + 1 :: PutIn(ps[i], mapping, buf, cuts[i], cuts[j])
  }

  lemma PutInLonger(p: Part, mapping: Variable -> string, buf: string, t: string, from: nat, to: nat)
    requires PutIn(p, mapping, buf, from, to)
    ensures PutIn(p, mapping, buf + t, from, to)
  {
    assert (buf + t)[from..to] == buf[from..to];
  }

  lemma FillsAppend(ps: seq<Part>, mapping: Variable -> string, buf: string, cuts: seq<nat>, p: Part, t: string)
    requires Fills(ps, mapping, buf, cuts)
    requires if p.Literal? then t == p.text else t == mapping(p.variable)
    ensures Fills(ps + [p], mapping, buf + t, cuts + [|buf| + |t|])
  {
    var all, more, text := ps + [p], cuts + [|buf| + |t|], buf + t;
    assert PutIn(p, mapping, text, |buf|, |text|) by {
      assert text[|buf|..] == t;
    }
    hide PutIn;
    forall i, j | 0 <= i < |all| && j == i + 1 ensures PutIn(all[i], mapping, text, more[i], more[j]) {
      if i < |ps| {
        PutInLonger(ps[i], mapping, buf, t, cuts[i], cuts[j]);
      }
    }
  }

  /** Wherever a variable is written, exactly its text is replaced by what it is mapped to. */
  lemma VariableIsReplaced(
    sigil: Sigil, s: string, a: seq<Part>, v: Variable, b: seq<Part>, mapping: Variable -> string)
    requires Normal(a + [Var(v)] + b) && SpellsParts(sigil, s, a + [Var(v)] + b)
    ensures Interpolate(Parse(sigil, s), mapping)
         == Interpolate(a, mapping) + mapping(v) + Interpolate(b, mapping)
  {
    ParseUndoesWriting(sigil, s, a + [Var(v)] + b);
    var one := [Var(v)];
    assert Interpolate(one, mapping) == mapping(v) + Interpolate(one[1..], mapping) == mapping(v);
    hide Interpolate, Parse, SpellsParts, Normal;
    InterpolateConcat(a + one, b, mapping);
    InterpolateConcat(a, one, mapping);
  }

  /** No character of the text has to be escaped. */
  predicate Plain(special: set<char>, t: string) {
    forall i | 0 <= i < |t| :: t[i] != BACKSLASH && t[i] !in special
  }

  lemma {:induction false} PlainSpells(special: set<char>, t: string)
    requires Plain(special, t)
    ensures Spells(special, t, t)
  {
    if t != "" {
      PlainSpells(special, t[1..]);
    }
  }

  /** The notation: a dollar or percent sign, braces, and a minus in front of a default. */
  lemma Notation(sigil: Sigil, name: string, fallback: string)
    requires Plain({'}', '-'}, name) && Plain({'}'}, fallback)
    ensures Parse(sigil, [sigil] + "{" + name + "}") == [Var(Variable(name, "", false))]
    ensures Parse(sigil, [sigil] + "{" + name + "-" + fallback + "}") == [Var(Variable(name, fallback, true))]
  {
    PlainSpells(NAME_SPECIAL, name);
    PlainSpells(DEFAULT_SPECIAL, fallback);
    var v, w := Variable(name, "", false), Variable(name, fallback, true);
    var s, t := [sigil] + "{" + name + "}", [sigil] + "{" + name + "-" + fallback + "}";
    assert s == VariableText(sigil, name, "", false);
    assert t == VariableText(sigil, name, fallback, true);
    assert SpellsPart(sigil, s, Var(v)) && SpellsPart(sigil, t, Var(w));
    hide Parse, SpellsPart, Plain;
    VariableParses(sigil, s, v, "");
    VariableParses(sigil, t, w, "");
    ParseNothing(sigil);
    assert s + "" == s && t + "" == t;
  }

  /** A character behind a backslash stands for itself, and so does a backslash at the end. */
  lemma Escapes(sigil: Sigil, c: char, rest: string)
    ensures Parse(sigil, "\\" + [c] + rest) == Glue([c], Parse(sigil, rest))
    ensures Parse(sigil, "\\") == [Literal("\\")]
  {
    var s := "\\" + [c] + rest;
    assert s[2..] == rest;
  }
}
