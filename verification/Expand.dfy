/** Template expansion: `${NAME}` becomes the variable's value, or nothing. */
module Expand {
  import opened Common

  type Variables = map<string, string>

  // ---------------------------------------------------------------- tokens

  /** Literal text followed by one variable. */
  datatype Part = Part(literal: string, key: string) {
    predicate WellFormed() {
      FindOpen(literal) == |literal| && FindClose(key) == |key|
    }
  }

  /** A template: parts, and a tail without a complete variable. */
  datatype Template = Tail(text: string) | Then(part: Part, rest: Template)

  /** Index of the first `${`, or the length. */
  function FindOpen(s: string): (i: nat)
    ensures i == |s| || i + 2 <= |s|
  {
    if |s| < 2 then |s|
    else if s[0] == '$' && s[1] == '{' then 0
    else 1 + FindOpen(s[1..])
  }

  /** Index of the first `}`, or the length. */
  function FindClose(s: string): (i: nat)
    ensures i <= |s|
  {
    if s == "" || s[0] == '}' then 0 else 1 + FindClose(s[1..])
  }

  /** The text up to and including the first variable, and what follows it. */
  function Cut(s: string): (r: Option<(Part, string)>)
    ensures r.Some? ==> |r.value.1| < |s|
  {
    var i := FindOpen(s);
    if i == |s| then None
    else
      var after := s[i + 2..];
      var j := FindClose(after);
      if j == |after| then None else Some((Part(s[..i], after[..j]), after[j + 1..]))
  }

  function Tokenize(s: string): Template
    decreases |s|
  {
    match Cut(s)
    case None => Tail(s)
    case Some((part, rest)) => Then(part, Tokenize(rest))
  }

  predicate WellFormed(t: Template) {
    match t
    case Tail(text) => Cut(text).None?
    case Then(part, rest) => part.WellFormed() && WellFormed(rest)
  }

  function RenderPart(part: Part, rest: string): string {
    part.literal + ("${" + (part.key + ("}" + rest)))
  }

  function Render(t: Template): string {
    match t
    case Tail(text) => text
    case Then(part, rest) => RenderPart(part, Render(rest))
  }

  /** Token-level substitution: values are inserted, never read again. */
  function Substitute(t: Template, vars: Variables): string {
    match t
    case Tail(text) => text
    case Then(part, rest) => part.literal + (if part.key in vars then vars[part.key] else "") + Substitute(rest, vars)
  }

  // ---------------------------------------------------------------- lemmas

  lemma {:induction false} OpenFound(s: string)
    requires FindOpen(s) < |s|
    ensures s[FindOpen(s)] == '$' && s[FindOpen(s) + 1] == '{'
  {
    if 0 < FindOpen(s) {
      OpenFound(s[1..]);
    }
  }

  lemma {:induction false} NothingOpenBefore(s: string)
    requires FindOpen(s) < |s|
    ensures FindOpen(s[..FindOpen(s)]) == FindOpen(s)
  {
    var i := FindOpen(s);
    if 0 < i {
      NothingOpenBefore(s[1..]);
      assert s[..i][1..] == s[1..][..i - 1];
    }
  }

  lemma SplitAt(s: string, i: nat, mark: string)
    requires i + |mark| <= |s| && s[i..i + |mark|] == mark
    ensures s == s[..i] + (mark + s[i + |mark|..])
  {
    var j := i + |mark|;
    assert s == s[..i] + s[i..];
    assert s[i..] == s[i..j] + s[j..];
  }

  lemma SplitAtOpen(s: string, i: nat)
    requires i + 2 <= |s| && s[i] == '$' && s[i + 1] == '{'
    ensures s == s[..i] + ("${" + s[i + 2..])
  {
    assert s[i..i + 2] == "${";
    SplitAt(s, i, "${");
  }

  lemma SplitAtClose(s: string, i: nat)
    requires i < |s| && s[i] == '}'
    ensures s == s[..i] + ("}" + s[i + 1..])
  {
    assert s[i..i + 1] == "}";
    SplitAt(s, i, "}");
  }

  lemma Halves(a: string, b: string)
    ensures (a + b)[..|a|] == a && (a + b)[|a|..] == b
  {
  }

  lemma OpenSplit(s: string)
    requires FindOpen(s) < |s|
    ensures var i := FindOpen(s); FindOpen(s[..i]) == i && s == s[..i] + ("${" + s[i + 2..])
  {
    OpenFound(s);
    NothingOpenBefore(s);
    SplitAtOpen(s, FindOpen(s));
  }

  lemma {:induction false} CloseFound(s: string)
    requires FindClose(s) < |s|
    ensures s[FindClose(s)] == '}' && FindClose(s[..FindClose(s)]) == FindClose(s)
  {
    var j := FindClose(s);
    if 0 < j {
      CloseFound(s[1..]);
      assert s[..j][1..] == s[1..][..j - 1];
    }
  }

  lemma CloseSplit(s: string)
    requires FindClose(s) < |s|
    ensures var j := FindClose(s); FindClose(s[..j]) == j && s == s[..j] + ("}" + s[j + 1..])
  {
    CloseFound(s);
    SplitAtClose(s, FindClose(s));
  }

  lemma {:induction false} OpenAfter(literal: string, rest: string)
    requires FindOpen(literal) == |literal|
    ensures FindOpen(literal + ("${" + rest)) == |literal|
  {
    if literal != "" {
      OpenAfter(literal[1..], rest);
      assert (literal + ("${" + rest))[1..] == literal[1..] + ("${" + rest);
    }
  }

  lemma {:induction false} CloseAfter(key: string, rest: string)
    requires FindClose(key) == |key|
    ensures FindClose(key + ("}" + rest)) == |key|
  {
    if key != "" {
      CloseAfter(key[1..], rest);
      assert (key + ("}" + rest))[1..] == key[1..] + ("}" + rest);
    }
  }

  /** Cutting and rendering a part are inverse. */
  lemma RenderCut(s: string)
    requires Cut(s).Some?
    ensures Cut(s).value.0.WellFormed() && RenderPart(Cut(s).value.0, Cut(s).value.1) == s
  {
    OpenSplit(s);
    CloseSplit(s[FindOpen(s) + 2..]);
  }

  lemma CutRender(part: Part, rest: string)
    requires part.WellFormed()
    ensures Cut(RenderPart(part, rest)) == Some((part, rest))
  {
    var s, after := RenderPart(part, rest), part.key + ("}" + rest);
    OpenAfter(part.literal, after);
    CloseAfter(part.key, rest);
    Halves(part.literal, "${" + after);
    Halves("${", after);
    assert s[|part.literal| + 2..] == s[|part.literal|..][2..];
    Halves(part.key, "}" + rest);
    Halves("}", rest);
    assert after[|part.key| + 1..] == after[|part.key|..][1..];
  }

  /** Every string is the rendering of its tokens ... */
  lemma {:induction false} RenderTokenize(s: string)
    ensures WellFormed(Tokenize(s)) && Render(Tokenize(s)) == s
    decreases |s|
  {
    if Cut(s).Some? {
      RenderCut(s);
      RenderTokenize(Cut(s).value.1);
    }
  }

  /** ... and these tokens are the only ones. */
  lemma {:induction false} TokenizeRender(t: Template)
    requires WellFormed(t)
    ensures Tokenize(Render(t)) == t
  {
    if t.Then? {
      CutRender(t.part, Render(t.rest));
      TokenizeRender(t.rest);
    }
  }

  // ---------------------------------------------------------------- method

  /** `Expand` is token-level substitution on every string; `src` shrinks to what is not yet read. */
  method Expand(template: string, vars: Variables) returns (p: string)
    ensures p == Substitute(Tokenize(template), vars)
    ensures forall t | WellFormed(t) && template == Render(t) :: p == Substitute(t, vars)
  {
    p := "";
    var src := template;
    while Cut(src).Some?
      invariant p + Substitute(Tokenize(src), vars) == Substitute(Tokenize(template), vars)
      decreases |src|
    {
      var (part, rest) := Cut(src).value;
      ghost var value := if part.key in vars then vars[part.key] else "";
      Assoc(p, part.literal, value, Substitute(Tokenize(rest), vars));
      p := p + part.literal;
      if part.key in vars {
        p := p + vars[part.key];
      } else {
        assert p + value == p;
      }
      src := rest;
    }
    p := p + src;
    forall t | WellFormed(t) && template == Render(t)
      ensures p == Substitute(t, vars)
    {
      TokenizeRender(t);
    }
  }

  lemma Assoc(a: string, b: string, c: string, d: string)
    ensures a + (b + c + d) == a + b + c + d
  {
  }
}
