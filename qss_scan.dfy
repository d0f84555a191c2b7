/** The two regular expressions of the style-sheet parser, written as deterministic
    scanners:

      rule pattern         <name>([ :\w]*)\{([^\{\}]+)\}
      declaration pattern  ([\-\w]*): (#[\d\w]+);

    No character class in them can also match the character that ends its run, so
    the greedy run is the only one that can succeed and no backtracking is needed.
    Each `...At` function matches at the start of its argument; each `Find...`
    function is `re.findall`: leftmost match first, retried one character further
    on a failure, resumed after the match on a success. */
module QssScan {
  import opened OrderedDict

  /** ASCII stand-in for Python's `\w` (which is also `\d\w`). */
  predicate IsWordChar(c: char) {
    'a' <= c <= 'z' || 'A' <= c <= 'Z' || '0' <= c <= '9' || c == '_'
  }

  datatype CharClass =
    | Word            // \w
    | SelectorSuffix  // [ :\w]
    | RuleBody        // [^{}]
    | PropertyName    // [-\w]

  predicate InClass(c: char, cls: CharClass) {
    match cls
    case Word => IsWordChar(c)
    case SelectorSuffix => c == ' ' || c == ':' || IsWordChar(c)
    case RuleBody => c != '{' && c != '}'
    case PropertyName => c == '-' || IsWordChar(c)
  }

  predicate AllIn(s: string, cls: CharClass) {
    forall i :: 0 <= i < |s| ==> InClass(s[i], cls)
  }

  /** A non-empty run of word characters, as every allow-listed name is. */
  predicate IsWordName(s: string) {
    |s| > 0 && AllIn(s, Word)
  }

  predicate StartsWith(s: string, prefix: string) {
    prefix <= s
  }

  /** `pattern` occurs somewhere in `s`. */
  ghost predicate Occurs(pattern: string, s: string) {
    exists i :: 0 <= i <= |s| && StartsWith(s[i..], pattern)
  }

  /** Length of the longest prefix of `s` made of characters of `cls`. */
  function Span(s: string, cls: CharClass): (n: nat)
    ensures n <= |s|
  {
    if s == [] || !InClass(s[0], cls) then 0 else 1 + Span(s[1..], cls)
  }

  /** The span is a run of `cls` that stops at the first character outside it. */
  lemma {:induction false} SpanFacts(s: string, cls: CharClass)
    ensures forall i :: 0 <= i < Span(s, cls) ==> InClass(s[i], cls)
    ensures Span(s, cls) < |s| ==> !InClass(s[Span(s, cls)], cls)
  {
    if s != [] && InClass(s[0], cls) {
      SpanFacts(s[1..], cls);
      assert forall i :: 1 <= i < |s| ==> s[i] == s[1..][i - 1];
    }
  }

  /** A run of `cls` of length `n` followed by a character outside `cls` is the span. */
  lemma {:induction false} SpanIs(s: string, n: nat, cls: CharClass)
    requires n <= |s|
    requires forall i :: 0 <= i < n ==> InClass(s[i], cls)
    requires n < |s| ==> !InClass(s[n], cls)
    ensures Span(s, cls) == n
    decreases n
  {
    if n > 0 {
      assert InClass(s[0], cls);
      forall i | 0 <= i < n - 1 ensures InClass(s[1..][i], cls) {
        assert s[1..][i] == s[i + 1];
      }
      assert n - 1 < |s| - 1 ==> s[1..][n - 1] == s[n];
      SpanIs(s[1..], n - 1, cls);
    }
  }

  /** The groups of one match of the rule pattern. */
  datatype Rule = Rule(suffix: string, body: string)

  /** `s` starts with a match of the rule pattern for `name` whose groups are `rule`
      and whose length is `len`. */
  predicate IsRuleMatch(s: string, name: string, rule: Rule, len: nat) {
    && AllIn(rule.suffix, SelectorSuffix)
    && 0 < |rule.body| && AllIn(rule.body, RuleBody)
    && len == |name| + |rule.suffix| + |rule.body| + 2
    && StartsWith(s, name + rule.suffix + "{" + rule.body + "}")
  }

  /** The rule pattern anchored at the start of `s`: its groups and its length. */
  function RuleAt(s: string, name: string): (r: Option<(Rule, nat)>)
    ensures r.Some? ==> |name| < r.value.1 <= |s|
  {
    if StartsWith(s, name) then RuleAfterSuffix(s, |name|, |name| + Span(s[|name|..], SelectorSuffix))
    else None
  }

  /** The rest of the rule pattern once the name `s[..n]` and the suffix `s[n..j]`
      are read. */
  function RuleAfterSuffix(s: string, n: nat, j: nat): (r: Option<(Rule, nat)>)
    requires n <= j <= |s|
    ensures r.Some? ==> j < r.value.1 <= |s|
  {
    if j < |s| && s[j] == '{' then
      var b := j + 1 + Span(s[j + 1..], RuleBody);
      if j + 1 < b < |s| && s[b] == '}' then Some((Rule(s[n..j], s[j + 1..b]), b + 1))
      else None
    else None
  }

  /** A prefix `p + q` is the prefix `p` followed by `q`. */
  lemma StartsWithSplit(s: string, p: string, q: string)
    requires StartsWith(s, p + q)
    ensures StartsWith(s, p) && StartsWith(s[|p|..], q)
  {
    assert s[..|p|] == (p + q)[..|p|];
    assert s[|p|..][..|q|] == (p + q)[|p|..];
  }

  lemma StartsWithExtend(s: string, p: string, q: string)
    requires StartsWith(s, p) && StartsWith(s[|p|..], q)
    ensures StartsWith(s, p + q)
  {
    assert s[..|p| + |q|] == s[..|p|] + s[|p|..][..|q|];
  }

  lemma StartsWithSlice(s: string, i: nat, j: nat)
    requires i <= j <= |s|
    ensures StartsWith(s[i..], s[i..j])
  {
    assert s[i..][..j - i] == s[i..j];
  }

  /** What the scanner returns is a match of the rule pattern. */
  lemma RuleAtSound(s: string, name: string, rule: Rule, len: nat)
    requires RuleAt(s, name) == Some((rule, len))
    ensures IsRuleMatch(s, name, rule, len)
  {
    var j, b := RuleAtFound(s, name, rule, len);
    ScannedRuleMatches(s, name, j, b, rule, len);
  }

  /** What `RuleAt` checked when it found a match: the `{` at `j` ends the suffix
      span and the `}` at `b` ends the body span. */
  lemma RuleAtFound(s: string, name: string, rule: Rule, len: nat) returns (j: nat, b: nat)
    requires RuleAt(s, name) == Some((rule, len))
    ensures StartsWith(s, name)
    ensures j == |name| + Span(s[|name|..], SelectorSuffix) && j < |s| && s[j] == '{'
    ensures b == j + 1 + Span(s[j + 1..], RuleBody) && j + 1 < b < |s| && s[b] == '}'
    ensures rule == Rule(s[|name|..j], s[j + 1..b]) && len == b + 1
  {
    j := |name| + Span(s[|name|..], SelectorSuffix);
    b := j + 1 + Span(s[j + 1..], RuleBody);
  }

  /** The spans `RuleAt` reads delimit a match of the rule pattern. */
  lemma ScannedRuleMatches(s: string, name: string, j: nat, b: nat, rule: Rule, len: nat)
    requires StartsWith(s, name)
    requires j == |name| + Span(s[|name|..], SelectorSuffix) && j < |s| && s[j] == '{'
    requires b == j + 1 + Span(s[j + 1..], RuleBody) && j + 1 < b < |s| && s[b] == '}'
    requires rule == Rule(s[|name|..j], s[j + 1..b]) && len == b + 1
    ensures IsRuleMatch(s, name, rule, len)
  {
    SpanFactsAt(s, |name|, SelectorSuffix);
    SpanFactsAt(s, j + 1, RuleBody);
    assert RuleShapeAt(s, name, j, b);
    RuleMatchAt(s, name, j, b);
  }

  /** `s` holds `name`, a run of suffix characters up to the `{` at `j`, and a
      non-empty run of body characters up to the `}` at `b`. */
  predicate RuleShapeAt(s: string, name: string, j: nat, b: nat) {
    && StartsWith(s, name) && |name| <= j && j + 1 < b < |s|
    && (forall i :: |name| <= i < j ==> InClass(s[i], SelectorSuffix))
    && s[j] == '{'
    && (forall i :: j + 1 <= i < b ==> InClass(s[i], RuleBody))
    && s[b] == '}'
  }

  /** The text from `name` to the closing `}` at `b` is a match of the rule pattern. */
  lemma RuleMatchAt(s: string, name: string, j: nat, b: nat)
    requires RuleShapeAt(s, name, j, b)
    ensures IsRuleMatch(s, name, Rule(s[|name|..j], s[j + 1..b]), b + 1)
  {
    var suffix := s[|name|..j];
    var body := s[j + 1..b];
    assert AllIn(suffix, SelectorSuffix) by {
      assert forall i :: 0 <= i < |suffix| ==> suffix[i] == s[|name| + i];
    }
    assert AllIn(body, RuleBody) by {
      assert forall i :: 0 <= i < |body| ==> body[i] == s[j + 1 + i];
    }
    StartsWithSlice(s, |name|, j);
    StartsWithExtend(s, name, suffix);
    StartsWithSlice(s, j, j + 1);
    assert s[j..j + 1] == "{";
    StartsWithExtend(s, name + suffix, "{");
    StartsWithSlice(s, j + 1, b);
    StartsWithExtend(s, name + suffix + "{", body);
    StartsWithSlice(s, b, b + 1);
    assert s[b..b + 1] == "}";
    StartsWithExtend(s, name + suffix + "{" + body, "}");
  }

  /** The characters a match of the rule pattern consists of: where its `{` and `}`
      stand, and what lies between. */
  lemma RuleMatchParts(s: string, name: string, rule: Rule, len: nat) returns (j: nat, b: nat)
    requires IsRuleMatch(s, name, rule, len)
    ensures RuleShapeAt(s, name, j, b)
    ensures rule == Rule(s[|name|..j], s[j + 1..b]) && len == b + 1
  {
    var c := name + rule.suffix;
    var a := c + "{" + rule.body;
    StartsWithSplit(s, a, "}");
    StartsWithSplit(s, c + "{", rule.body);
    StartsWithSplit(s, c, "{");
    StartsWithSplit(s, name, rule.suffix);
    j := |c|;
    b := |a|;
    assert s[j..][0] == '{';
    assert s[b..][0] == '}';
    assert s[|name|..j] == rule.suffix by {
      assert s[|name|..][..|rule.suffix|] == rule.suffix;
    }
    assert s[j + 1..b] == rule.body by {
      assert s[j + 1..][..|rule.body|] == rule.body;
    }
    forall i | |name| <= i < j ensures InClass(s[i], SelectorSuffix) {
      assert s[i] == rule.suffix[i - |name|];
    }
    forall i | j + 1 <= i < b ensures InClass(s[i], RuleBody) {
      assert s[i] == rule.body[i - j - 1];
    }
  }

  /** The scanner finds every match of the rule pattern: a match is unique, and
      `RuleAt` returns it. */
  lemma RuleAtFindsMatch(s: string, name: string, rule: Rule, len: nat)
    requires IsRuleMatch(s, name, rule, len)
    ensures RuleAt(s, name) == Some((rule, len))
  {
    var j, b := RuleMatchParts(s, name, rule, len);
    RuleAtOfParts(s, name, j, b, rule, len);
  }

  /** `RuleAt` on a text that has the shape of a match. */
  lemma RuleAtOfParts(s: string, name: string, j: nat, b: nat, rule: Rule, len: nat)
    requires RuleShapeAt(s, name, j, b)
    requires rule == Rule(s[|name|..j], s[j + 1..b]) && len == b + 1
    ensures RuleAt(s, name) == Some((rule, len))
  {
    SpanAt(s, |name|, j - |name|, SelectorSuffix);
    SpanAt(s, j + 1, b - j - 1, RuleBody);
    RuleAtIs(s, name, j, b);
  }

  /** `SpanFacts` for the text from position `i` on. */
  lemma SpanFactsAt(s: string, i: nat, cls: CharClass)
    requires i <= |s|
    ensures forall x :: i <= x < i + Span(s[i..], cls) ==> InClass(s[x], cls)
    ensures i + Span(s[i..], cls) < |s| ==> !InClass(s[i + Span(s[i..], cls)], cls)
  {
    var t := s[i..];
    SpanFacts(t, cls);
    assert forall x :: i <= x < |s| ==> s[x] == t[x - i];
  }

  /** `SpanIs` for the text from position `i` on. */
  lemma SpanAt(s: string, i: nat, n: nat, cls: CharClass)
    requires i + n <= |s|
    requires forall x :: i <= x < i + n ==> InClass(s[x], cls)
    requires i + n < |s| ==> !InClass(s[i + n], cls)
    ensures Span(s[i..], cls) == n
  {
    var t := s[i..];
    assert forall x :: 0 <= x < n ==> t[x] == s[i + x];
    assert i + n < |s| ==> t[n] == s[i + n];
    SpanIs(t, n, cls);
  }

  lemma RuleAtIs(s: string, name: string, j: nat, b: nat)
    requires StartsWith(s, name)
    requires j == |name| + Span(s[|name|..], SelectorSuffix) && j < |s| && s[j] == '{'
    requires b == j + 1 + Span(s[j + 1..], RuleBody) && j + 1 < b < |s| && s[b] == '}'
    ensures RuleAt(s, name) == Some((Rule(s[|name|..j], s[j + 1..b]), b + 1))
  {
    RuleAfterSuffixIs(s, |name|, j, b);
  }

  lemma RuleAfterSuffixIs(s: string, n: nat, j: nat, b: nat)
    requires n <= j < |s| && s[j] == '{'
    requires b == j + 1 + Span(s[j + 1..], RuleBody) && j + 1 < b < |s| && s[b] == '}'
    ensures RuleAfterSuffix(s, n, j) == Some((Rule(s[n..j], s[j + 1..b]), b + 1))
  {
  }

  /** `value` is `#` followed by one or more word characters. */
  predicate IsColorValue(value: string) {
    |value| >= 2 && value[0] == '#' && AllIn(value[1..], Word)
  }

  /** `s` starts with a match of the declaration pattern with groups `prop` and
      `value` and length `len`. */
  predicate IsDeclMatch(s: string, prop: string, value: string, len: nat) {
    && AllIn(prop, PropertyName)
    && IsColorValue(value)
    && len == |prop| + |value| + 3
    && StartsWith(s, prop + ": " + value + ";")
  }

  /** The declaration pattern anchored at the start of `s`: its groups and length. */
  function DeclAt(s: string): (r: Option<((string, string), nat)>)
    ensures r.Some? ==> 0 < r.value.1 <= |s|
  {
    DeclAfterName(s, Span(s, PropertyName))
  }

  /** The rest of the declaration pattern once the property name `s[..p]` is read. */
  function DeclAfterName(s: string, p: nat): (r: Option<((string, string), nat)>)
    requires p <= |s|
    ensures r.Some? ==> 0 < r.value.1 <= |s|
  {
    if p + 3 <= |s| && s[p] == ':' && s[p + 1] == ' ' && s[p + 2] == '#' then
      var v := p + 3 + Span(s[p + 3..], Word);
      if p + 3 < v < |s| && s[v] == ';' then Some(((s[..p], s[p + 2..v]), v + 1))
      else None
    else None
  }

  /** What the scanner returns is a match of the declaration pattern. */
  lemma DeclAtSound(s: string)
    requires DeclAt(s).Some?
    ensures IsDeclMatch(s, DeclAt(s).value.0.0, DeclAt(s).value.0.1, DeclAt(s).value.1)
  {
    var p := Span(s, PropertyName);
    var u := s[p + 3..];
    var v := p + 3 + Span(u, Word);
    SpanFacts(s, PropertyName);
    SpanFacts(u, Word);
    DeclAtIs(s, p, v);
    forall i | p + 3 <= i < v ensures InClass(s[i], Word) {
      assert s[i] == u[i - p - 3];
    }
    DeclMatchAt(s, p, v);
  }

  lemma DeclAtIs(s: string, p: nat, v: nat)
    requires p == Span(s, PropertyName) && p + 3 <= |s|
    requires s[p] == ':' && s[p + 1] == ' ' && s[p + 2] == '#'
    requires v == p + 3 + Span(s[p + 3..], Word) && p + 3 < v < |s| && s[v] == ';'
    ensures DeclAt(s) == Some(((s[..p], s[p + 2..v]), v + 1))
  {
    DeclAfterNameIs(s, p, v);
  }

  lemma DeclAfterNameIs(s: string, p: nat, v: nat)
    requires p + 3 <= |s|
    requires s[p] == ':' && s[p + 1] == ' ' && s[p + 2] == '#'
    requires v == p + 3 + Span(s[p + 3..], Word) && p + 3 < v < |s| && s[v] == ';'
    ensures DeclAfterName(s, p) == Some(((s[..p], s[p + 2..v]), v + 1))
  {
  }

  /** The text up to the `;` at `v` is a match of the declaration pattern. */
  lemma DeclMatchAt(s: string, p: nat, v: nat)
    requires p + 3 < v < |s|
    requires forall i :: 0 <= i < p ==> InClass(s[i], PropertyName)
    requires s[p] == ':' && s[p + 1] == ' ' && s[p + 2] == '#'
    requires forall i :: p + 3 <= i < v ==> InClass(s[i], Word)
    requires s[v] == ';'
    ensures IsDeclMatch(s, s[..p], s[p + 2..v], v + 1)
  {
    var prop := s[..p];
    var value := s[p + 2..v];
    assert AllIn(prop, PropertyName) by {
      assert forall i :: 0 <= i < |prop| ==> prop[i] == s[i];
    }
    assert AllIn(value[1..], Word) by {
      assert forall i :: 0 <= i < |value| - 1 ==> value[1..][i] == s[p + 3 + i];
    }
    StartsWithSlice(s, 0, p);
    assert s[0..] == s && s[0..p] == prop;
    StartsWithSlice(s, p, p + 2);
    assert s[p..p + 2] == ": ";
    StartsWithExtend(s, prop, ": ");
    StartsWithSlice(s, p + 2, v);
    StartsWithExtend(s, prop + ": ", value);
    StartsWithSlice(s, v, v + 1);
    assert s[v..v + 1] == ";";
    StartsWithExtend(s, prop + ": " + value, ";");
  }

  /** The characters a match of the declaration pattern consists of. */
  lemma DeclMatchParts(s: string, prop: string, value: string, len: nat)
    requires IsDeclMatch(s, prop, value, len)
    ensures len <= |s| && len == |prop| + |value| + 3
    ensures forall i :: 0 <= i < |prop| ==> s[i] == prop[i]
    ensures s[|prop|] == ':' && s[|prop| + 1] == ' '
    ensures forall i :: 0 <= i < |value| ==> s[|prop| + 2 + i] == value[i]
    ensures s[len - 1] == ';'
  {
    var c := prop + ": ";
    var a := c + value;
    StartsWithSplit(s, a, ";");
    StartsWithSplit(s, c, value);
    StartsWithSplit(s, prop, ": ");
    assert s[|prop|..][..2] == ": ";
    assert s[|a|..][0] == ';';
    forall i | 0 <= i < |value| ensures s[|prop| + 2 + i] == value[i] {
      assert s[|c|..][i] == value[i];
    }
  }

  /** The scanner finds every match of the declaration pattern. */
  lemma DeclAtFindsMatch(s: string, prop: string, value: string, len: nat)
    requires IsDeclMatch(s, prop, value, len)
    ensures DeclAt(s) == Some(((prop, value), len))
  {
    DeclMatchParts(s, prop, value, len);
    var p := |prop|;
    var m := |value| - 1;
    forall i | p + 3 <= i < p + 3 + m ensures InClass(s[i], Word) {
      assert s[i] == value[i - p - 2] == value[1..][i - p - 3];
    }
    assert s[..p] == prop;
    assert s[p + 2..p + 3 + m] == value;
    DeclAtOfParts(s, p, m);
  }

  /** `DeclAt` on a text that has the shape of a declaration match. */
  lemma DeclAtOfParts(s: string, p: nat, m: nat)
    requires 0 < m && p + 3 + m < |s|
    requires forall i :: 0 <= i < p ==> InClass(s[i], PropertyName)
    requires s[p] == ':' && s[p + 1] == ' ' && s[p + 2] == '#'
    requires forall i :: p + 3 <= i < p + 3 + m ==> InClass(s[i], Word)
    requires s[p + 3 + m] == ';'
    ensures DeclAt(s) == Some(((s[..p], s[p + 2..p + 3 + m]), p + m + 4))
  {
    SpanIs(s, p, PropertyName);
    SpanAt(s, p + 3, m, Word);
    DeclAtIs(s, p, p + 3 + m);
  }

  /** `re.findall` of the rule pattern for `name` over `s`. */
  function FindRules(s: string, name: string): (r: seq<Rule>)
    decreases |s|
  {
    if s == [] then []
    else match RuleAt(s, name)
      case Some((rule, len)) => [rule] + FindRules(s[len..], name)
      case None => FindRules(s[1..], name)
  }

  /** `re.findall` resumes after a match found at the start of the text. */
  lemma FindRulesAtMatch(s: string, name: string, rule: Rule, len: nat, tail: string)
    requires IsRuleMatch(s, name, rule, len) && len <= |s| && s[len..] == tail
    ensures FindRules(s, name) == [rule] + FindRules(tail, name)
  {
    RuleAtFindsMatch(s, name, rule, len);
  }

  /** `re.findall` of the declaration pattern over `s`: (property, value) pairs. */
  function FindDecls(s: string): (r: seq<(string, string)>)
    decreases |s|
  {
    if s == [] then []
    else match DeclAt(s)
      case Some((decl, len)) => [decl] + FindDecls(s[len..])
      case None => FindDecls(s[1..])
  }

  lemma OccursLater(pattern: string, s: string, k: nat)
    requires k <= |s| && Occurs(pattern, s[k..])
    ensures Occurs(pattern, s)
  {
    var i :| 0 <= i <= |s[k..]| && StartsWith(s[k..][i..], pattern);
    assert s[k..][i..] == s[k + i..];
  }

  /** Every rule found is a genuine match of the rule pattern somewhere in `s`. */
  lemma {:induction false} FindRulesSound(s: string, name: string)
    ensures forall rule :: rule in FindRules(s, name) ==>
              && AllIn(rule.suffix, SelectorSuffix)
              && 0 < |rule.body| && AllIn(rule.body, RuleBody)
              && Occurs(name + rule.suffix + "{" + rule.body + "}", s)
    decreases |s|
  {
    if s != [] {
      match RuleAt(s, name)
      case Some((rule, len)) =>
        RuleAtSound(s, name, rule, len);
        FindRulesSound(s[len..], name);
        assert s[0..] == s;
        forall r' | r' in FindRules(s[len..], name)
          ensures Occurs(name + r'.suffix + "{" + r'.body + "}", s)
        {
          OccursLater(name + r'.suffix + "{" + r'.body + "}", s, len);
        }
      case None =>
        FindRulesSound(s[1..], name);
        forall r' | r' in FindRules(s[1..], name)
          ensures Occurs(name + r'.suffix + "{" + r'.body + "}", s)
        {
          OccursLater(name + r'.suffix + "{" + r'.body + "}", s, 1);
        }
    }
  }

  /** Every declaration found is a genuine match of the declaration pattern. */
  lemma {:induction false} FindDeclsSound(s: string)
    ensures forall d :: d in FindDecls(s) ==>
              && AllIn(d.0, PropertyName) && IsColorValue(d.1)
              && Occurs(d.0 + ": " + d.1 + ";", s)
    decreases |s|
  {
    if s != [] {
      match DeclAt(s)
      case Some((decl, len)) =>
        DeclAtSound(s);
        FindDeclsSound(s[len..]);
        assert s[0..] == s;
        forall d | d in FindDecls(s[len..]) ensures Occurs(d.0 + ": " + d.1 + ";", s) {
          OccursLater(d.0 + ": " + d.1 + ";", s, len);
        }
      case None =>
        FindDeclsSound(s[1..]);
        forall d | d in FindDecls(s[1..]) ensures Occurs(d.0 + ": " + d.1 + ";", s) {
          OccursLater(d.0 + ": " + d.1 + ";", s, 1);
        }
    }
  }
}
