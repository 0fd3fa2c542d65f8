/**
 * The pattern `{([A-z0-9\-\_]+)}` that finds template tags, and the
 * left-to-right decomposition of a string into plain characters and tag
 * matches that a single replacement pass over it performs.
 *
 * The character class is taken literally: `A-z` is the ASCII range from
 * 'A' (65) to 'z' (122), so besides letters it also admits `[`, `\`, `]`,
 * `^`, `_` and the backtick. `{`, `|` and `}` lie outside it.
 */
module TagPattern {
  import opened Optional
  import opened Sequences

  /** A character of the class `[A-z0-9\-\_]`. */
  predicate IsTagChar(c: char)
    ensures IsTagChar(c) <==> c as int == 45 || 48 <= c as int <= 57 || 65 <= c as int <= 122
    ensures c == '{' || c == '|' || c == '}' ==> !IsTagChar(c)
  {
    c == '-' || ('0' <= c <= '9') || ('A' <= c <= 'z')
  }

  /** What the capture group `([A-z0-9\-\_]+)` accepts: one or more class characters. */
  predicate IsTagName(n: string)
    ensures IsTagName(n) ==> '{' !in n && '}' !in n
  {
    |n| > 0 && forall i | 0 <= i < |n| :: IsTagChar(n[i])
  }

  /** The length of the longest run of class characters at the start of `s`. */
  function NameRun(s: string): (n: nat)
    ensures n <= |s|
    ensures forall i | 0 <= i < n :: IsTagChar(s[i])
    ensures n < |s| ==> !IsTagChar(s[n])
  {
    if s != [] && IsTagChar(s[0]) then 1 + NameRun(s[1..]) else 0
  }

  /**
   * The tag that the pattern matches at the very start of `s`, as the
   * text of its capture group. Since `}` is not a class character, the
   * greedy `+` either stops right before a `}` or no match begins here.
   */
  function LeadingTag(s: string): (r: Option<string>)
    ensures r.Some? ==> IsTagName(r.value) && |r.value| + 2 <= |s| && s[..|r.value| + 2] == "{" + r.value + "}"
  {
    if |s| >= 2 && s[0] == '{' then
      var n := NameRun(s[1..]);
      if n > 0 && n + 1 < |s| && s[n + 1] == '}' then
        var name := s[1..n + 1];
        assert s[..n + 2] == "{" + name + "}";
        Some(name)
      else
        None
    else
      None
  }

  /** Whenever a well-formed tag is a prefix of `s`, it is the match found there. */
  lemma LeadingTagComplete(s: string, m: string)
    requires IsTagName(m) && |m| + 2 <= |s| && s[..|m| + 2] == "{" + m + "}"
    ensures LeadingTag(s) == Some(m)
  {
    LeadingTagUnique(s, m, NameRun(s[1..]));
  }

  /** A tag that is a prefix of `s` spans exactly the maximal run of class characters after `{`. */
  lemma LeadingTagUnique(s: string, m: string, n: nat)
    requires IsTagName(m) && |m| + 2 <= |s| && s[..|m| + 2] == "{" + m + "}"
    requires n == NameRun(s[1..])
    ensures n == |m| && n + 1 < |s| && s[n + 1] == '}' && s[1..n + 1] == m
  {
    var u := s[1..];
    assert forall i | 0 <= i < |m| :: u[i] == m[i];
    assert u[|m|] == '}';
    assert n <= |m|;
    assert forall i | 0 <= i < |m| :: IsTagChar(u[i]);
    assert n >= |m|;
    assert u[..n] == m;
  }

  /** One step of the pass: a character copied as it is, or one tag match. */
  datatype Piece = Literal(c: char) | Placeholder(name: string)

  /**
   * The pass's decomposition of `s`, left to right: at each position either
   * a tag match starts (and the scan resumes after its `}`), or the
   * character there is copied and the scan moves on by one.
   */
  function Scan(s: string): (ps: seq<Piece>)
    ensures forall i | 0 <= i < |ps| && ps[i].Placeholder? :: IsTagName(ps[i].name)
    decreases |s|
  {
    if s == [] then []
    else match LeadingTag(s)
      case Some(n) => [Placeholder(n)] + Scan(s[|n| + 2..])
      case None => [Literal(s[0])] + Scan(s[1..])
  }

  /** The text a piece stands for in the input: the character, or the whole match `{name}`. */
  function PieceText(p: Piece): string {
    match p
    case Literal(c) => [c]
    case Placeholder(n) => "{" + n + "}"
  }

  /** The text a sequence of pieces stands for. */
  function Unscan(ps: seq<Piece>): string {
    if ps == [] then "" else PieceText(ps[0]) + Unscan(ps[1..])
  }

  /** `Scan` at a position where a match starts. */
  lemma ScanAtTag(s: string, n: string)
    requires LeadingTag(s) == Some(n)
    ensures |n| + 2 <= |s| && Scan(s) == [Placeholder(n)] + Scan(s[|n| + 2..])
  {
  }

  /** `Scan` at a position where no match starts. */
  lemma ScanAtChar(s: string)
    requires s != [] && LeadingTag(s) == None
    ensures Scan(s) == [Literal(s[0])] + Scan(s[1..])
  {
  }

  lemma UnscanCons(p: Piece, ps: seq<Piece>)
    ensures Unscan([p] + ps) == PieceText(p) + Unscan(ps)
  {
    assert ([p] + ps)[1..] == ps;
  }

  /** The decomposition covers the input exactly: nothing is dropped, duplicated or reordered. */
  lemma {:induction false} ScanRoundTrip(s: string)
    ensures Unscan(Scan(s)) == s
    decreases |s|
  {
    if s != [] {
      match LeadingTag(s)
      case Some(n) =>
        var k := |n| + 2;
        ScanAtTag(s, n);
        ScanRoundTrip(s[k..]);
        UnscanCons(Placeholder(n), Scan(s[k..]));
        assert s[..k] + s[k..] == s;
      case None =>
        ScanAtChar(s);
        ScanRoundTrip(s[1..]);
        UnscanCons(Literal(s[0]), Scan(s[1..]));
        assert [s[0]] + s[1..] == s;
    }
  }

  /** Text free of `{`. */
  predicate NoOpenBrace(p: string) {
    forall i | 0 <= i < |p| :: p[i] != '{'
  }

  /** Each character of `p`, as a literal piece. */
  function Literals(p: string): (ps: seq<Piece>)
    ensures |ps| == |p|
    ensures forall i | 0 <= i < |p| :: ps[i] == Literal(p[i])
  {
    seq(|p|, i requires 0 <= i < |p| => Literal(p[i]))
  }

  lemma LiteralsCons(p: string)
    requires p != []
    ensures Literals(p) == [Literal(p[0])] + Literals(p[1..])
  {
  }

  /** No match can start inside text without `{`, so such text passes through as literals. */
  lemma {:induction false} ScanPlainPrefix(p: string, s: string)
    requires NoOpenBrace(p)
    ensures Scan(p + s) == Literals(p) + Scan(s)
    decreases |p|
  {
    if p == [] {
      assert p + s == s;
      assert Literals(p) == [];
    } else {
      var ps := p + s;
      assert ps[0] == p[0] != '{';
      ScanAtChar(ps);
      assert ps[1..] == p[1..] + s;
      ScanPlainPrefix(p[1..], s);
      AppendAssoc([Literal(p[0])], Literals(p[1..]), Scan(s));
      LiteralsCons(p);
    }
  }

  /** A well-formed tag at the front is one match, and scanning resumes right after its `}`. */
  lemma ScanTagPrefix(n: string, s: string)
    requires IsTagName(n)
    ensures Scan("{" + n + "}" + s) == [Placeholder(n)] + Scan(s)
  {
    var t := "{" + n + "}" + s;
    assert t[..|n| + 2] == "{" + n + "}";
    LeadingTagComplete(t, n);
    assert t[|n| + 2..] == s;
  }

  /**
   * A brace pair whose inside is empty or holds a character outside the
   * class (and no brace) is never a match: it passes through as literals.
   */
  lemma ScanMalformedPair(n: string, s: string)
    requires NoOpenBrace(n) && forall i | 0 <= i < |n| :: n[i] != '}'
    requires !IsTagName(n)
    ensures Scan("{" + n + "}" + s) == Literals("{" + n + "}") + Scan(s)
  {
    var t := "{" + n + "}" + s;
    NoTagAtMalformedPair(n, s);
    ScanAtChar(t);
    BracedShape(n, s);
    ScanPlainPrefix(n + "}", s);
    AppendAssoc([Literal('{')], Literals(n + "}"), Scan(s));
    LiteralsCons("{" + n + "}");
  }

  /** How `{n}s` splits after its opening brace. */
  lemma BracedShape(n: string, s: string)
    requires NoOpenBrace(n)
    ensures ("{" + n + "}" + s)[0] == '{'
    ensures ("{" + n + "}" + s)[1..] == (n + "}") + s
    ensures ("{" + n + "}")[1..] == n + "}"
    ensures NoOpenBrace(n + "}")
  {
    assert forall i | 0 <= i < |n| :: (n + "}")[i] == n[i];
  }

  /** At a brace pair that does not enclose a tag name, no match starts. */
  lemma NoTagAtMalformedPair(n: string, s: string)
    requires forall i | 0 <= i < |n| :: n[i] != '}'
    requires !IsTagName(n)
    ensures LeadingTag("{" + n + "}" + s) == None
  {
    var t := "{" + n + "}" + s;
    var u := t[1..];
    assert u == n + "}" + s;
    var run := NameRun(u);
    assert u[|n|] == '}';
    assert run <= |n|;
    if run < |n| {
      assert t[run + 1] == n[run];
    } else {
      assert forall i | 0 <= i < |n| :: n[i] == u[i];
      assert run == 0;
    }
  }
}
