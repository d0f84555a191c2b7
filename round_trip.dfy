/** The conditional round trip between `_dict_to_css` and `_css_to_dict`: extracting
    a generated style-sheet gives back exactly the kept entries of the model, provided
    each key and each declaration is recognised by the scanners in exactly one place. */
module RoundTrip {
  import opened OrderedDict
  import opened QssScan
  import opened StyleModel

  /** A key the rule scanner finds again: made of `[ :\w]` characters, starting with
      an allow-listed name, and with no allow-listed name starting anywhere else in
      it. */
  ghost predicate IsRoundTripKey(k: string) {
    && AllIn(k, SelectorSuffix)
    && (exists w :: 0 <= w < |StylableWidgets| && StartsWith(k, StylableWidgets[w]))
    && (forall w, i :: 0 <= w < |StylableWidgets| && 0 < i < |k| ==>
          !StartsWith(k[i..], StylableWidgets[w]))
  }

  /** The condition under which the round trip holds. */
  ghost predicate RoundTrippable(d: StyleDict) {
    && ValidModel(d)
    && forall k :: k in d.table ==>
         IsRoundTripKey(k) && |d.table[k].order| > 0 && IsColorProperties(d.table[k])
  }

  // ---------------------------------------------------------------------------
  // Declarations: re-scanning the lines `_dict_to_css` writes for one rule.

  lemma SkipDeclChar(c: char, x: string)
    requires c == ' ' || c == '\n'
    ensures FindDecls([c] + x) == FindDecls(x)
  {
    var s := [c] + x;
    assert s[0] == c;
    assert Span(s, PropertyName) == 0;
    assert DeclAt(s) == None;
    assert s[1..] == x;
  }

  lemma DeclLineScan(p: string, v: string, rest: string)
    requires AllIn(p, PropertyName) && IsColorValue(v)
    ensures FindDecls("   " + p + ": " + v + ";\n" + rest) == [(p, v)] + FindDecls(rest)
  {
    var q := p + ": " + v + ";";
    var t := q + ("\n" + rest);
    assert "   " + p + ": " + v + ";\n" + rest == [' '] + ([' '] + ([' '] + t));
    SkipDeclChar(' ', [' '] + ([' '] + t));
    SkipDeclChar(' ', [' '] + t);
    SkipDeclChar(' ', t);
    assert t[..|q|] == q;
    DeclAtFindsMatch(t, p, v, |q|);
    assert t[|q|..] == ['\n'] + rest;
    SkipDeclChar('\n', rest);
  }

  lemma {:induction false} DeclLinesScan(props: Properties, ks: seq<string>)
    requires props.Valid() && IsColorProperties(props)
    requires forall k :: k in ks ==> k in props.table
    ensures FindDecls(DeclLines(props, ks)) == EntriesOf(props, ks)
  {
    if ks != [] {
      DeclLineScan(ks[0], props.table[ks[0]], DeclLines(props, ks[1..]));
      DeclLinesScan(props, ks[1..]);
    }
  }

  /** Re-scanning the body `_dict_to_css` writes for a property dictionary rebuilds it. */
  lemma RuleBodyProperties(props: Properties)
    requires props.Valid() && IsColorProperties(props)
    ensures ParseProperties("\n" + DeclLines(props, props.order)) == props
  {
    SkipDeclChar('\n', DeclLines(props, props.order));
    assert "\n" + DeclLines(props, props.order) == ['\n'] + DeclLines(props, props.order);
    DeclLinesScan(props, props.order);
    RebuildFromEntries(props);
  }

  lemma AllInAppend(a: string, b: string, cls: CharClass)
    requires AllIn(a, cls) && AllIn(b, cls)
    ensures AllIn(a + b, cls)
  {
  }

  lemma {:induction false} DeclLinesBraceFree(props: Properties, ks: seq<string>)
    requires IsColorProperties(props)
    requires forall k :: k in ks ==> k in props.table
    ensures AllIn(DeclLines(props, ks), RuleBody)
  {
    if ks != [] {
      var v := props.table[ks[0]];
      assert AllIn(ks[0], RuleBody);
      assert AllIn(v, RuleBody) by {
        assert forall i :: 1 <= i < |v| ==> v[i] == v[1..][i - 1];
      }
      AllInAppend("   ", ks[0], RuleBody);
      AllInAppend("   " + ks[0], ": ", RuleBody);
      AllInAppend("   " + ks[0] + ": ", v, RuleBody);
      AllInAppend("   " + ks[0] + ": " + v, ";\n", RuleBody);
      DeclLinesBraceFree(props, ks[1..]);
      AllInAppend("   " + ks[0] + ": " + v + ";\n", DeclLines(props, ks[1..]), RuleBody);
    }
  }

  // ---------------------------------------------------------------------------
  // Rules: re-scanning the blocks `_dict_to_css` writes.

  /** No rule match starts where a `{`-free stretch ends in a character that stops a
      selector suffix before any `{` is reached. */
  lemma NoRuleAt(s: string, name: string, z: nat)
    requires IsWordName(name)
    requires 0 < z <= |s|
    requires forall i :: 0 <= i < z ==> s[i] != '{'
    requires !InClass(s[z - 1], SelectorSuffix)
    ensures RuleAt(s, name) == None
  {
    if StartsWith(s, name) {
      assert forall i :: 0 <= i < |name| ==> s[i] == name[i];
      assert |name| < z;
      var t := s[|name|..];
      assert t[z - 1 - |name|] == s[z - 1];
      SpanFacts(t, SelectorSuffix);
      assert Span(t, SelectorSuffix) <= z - 1 - |name|;
    }
  }

  lemma {:induction false} SkipNoRules(w: string, s: string, name: string)
    requires forall i :: 0 <= i < |w| ==> RuleAt((w + s)[i..], name) == None
    ensures FindRules(w + s, name) == FindRules(s, name)
    decreases |w|
  {
    if w == [] {
      assert w + s == s;
    } else {
      assert (w + s)[0..] == w + s;
      assert (w + s)[1..] == w[1..] + s;
      forall i | 0 <= i < |w[1..]| ensures RuleAt((w[1..] + s)[i..], name) == None {
        assert (w[1..] + s)[i..] == (w + s)[i + 1..];
      }
      SkipNoRules(w[1..], s, name);
    }
  }

  /** A `{`-free stretch ending in a line break holds no rule match. */
  lemma SkipTail(z: string, s: string, name: string)
    requires IsWordName(name)
    requires 0 < |z| && z[|z| - 1] == '\n'
    requires forall i :: 0 <= i < |z| ==> z[i] != '{'
    ensures FindRules(z + s, name) == FindRules(s, name)
  {
    forall i | 0 <= i < |z| ensures RuleAt((z + s)[i..], name) == None {
      var t := (z + s)[i..];
      assert forall j :: 0 <= j < |z| - i ==> t[j] == z[i + j];
      NoRuleAt(t, name, |z| - i);
    }
    SkipNoRules(z, s, name);
  }

  /** No occurrence of `name` starts strictly inside `k`. */
  ghost predicate NotInside(k: string, name: string) {
    forall i :: 0 < i < |k| ==> !StartsWith(k[i..], name)
  }

  lemma RoundTripKeyNotInside(k: string, w: nat)
    requires w < |StylableWidgets| && IsRoundTripKey(k)
    ensures NotInside(k, StylableWidgets[w])
  {
  }

  /** Inside a key, and at the `{` after it, a name that is not a prefix of the key
      and does not start inside it starts no match. */
  lemma SkipKey(k: string, s: string, name: string)
    requires IsWordName(name) && NotInside(k, name) && !StartsWith(k, name)
    requires |s| > 0 && s[0] == '{'
    ensures FindRules(k + s, name) == FindRules(s, name)
  {
    forall i | 0 <= i < |k| ensures RuleAt((k + s)[i..], name) == None {
      var t := (k + s)[i..];
      if |name| <= |k| - i {
        assert t[..|name|] == k[i..][..|name|];
        assert !StartsWith(k[i..], name);
      } else {
        assert t[|k| - i] == '{';
      }
      assert !StartsWith(t, name);
    }
    SkipNoRules(k, s, name);
  }

  /** Scanning one generated block for a name: it yields the block's key suffix and
      body when the name is a prefix of the key, and nothing else. */
  lemma RuleTextScan(k: string, props: Properties, rest: string, name: string)
    requires IsWordName(name) && AllIn(k, SelectorSuffix) && NotInside(k, name)
    requires props.Valid() && IsColorProperties(props)
    ensures FindRules(RuleText(k, props) + rest, name) ==
              (if StartsWith(k, name) then [Rule(k[|name|..], "\n" + DeclLines(props, props.order))] else [])
              + FindRules(rest, name)
  {
    var lines := DeclLines(props, props.order);
    var body := "\n" + lines;
    DeclLinesBraceFree(props, props.order);
    assert AllIn(body, RuleBody);
    RuleTextShape(k, props, rest);
    if StartsWith(k, name) {
      RuleBlockMatch(k, body, rest, name);
    } else {
      RuleBlockSkip(k, body, rest, name);
    }
  }

  lemma RuleBlockSkip(k: string, body: string, rest: string, name: string)
    requires IsWordName(name) && NotInside(k, name) && !StartsWith(k, name)
    requires AllIn(body, RuleBody)
    ensures FindRules(k + ("{" + ((body + "}\n\n") + rest)), name) == FindRules(rest, name)
  {
    var tail := body + "}\n\n";
    assert forall i :: 0 <= i < |tail| ==> tail[i] != '{';
    SkipKey(k, "{" + (tail + rest), name);
    assert "{" + (tail + rest) == ['{'] + (tail + rest);
    SkipNoRules(['{'], tail + rest, name);
    SkipTail(tail, rest, name);
  }

  lemma RuleTextShape(k: string, props: Properties, rest: string)
    requires props.Valid()
    ensures RuleText(k, props) + rest == k + ("{" + ((("\n" + DeclLines(props, props.order)) + "}\n\n") + rest))
  {
    var lines := DeclLines(props, props.order);
    assert "{\n" + lines == "{" + ("\n" + lines);
  }

  lemma RuleBlockMatch(k: string, body: string, rest: string, name: string)
    requires IsWordName(name) && AllIn(k, SelectorSuffix) && StartsWith(k, name)
    requires 0 < |body| && AllIn(body, RuleBody)
    ensures FindRules(k + ("{" + ((body + "}\n\n") + rest)), name) ==
              [Rule(k[|name|..], body)] + FindRules(rest, name)
  {
    BlockScan(k + ("{" + ((body + "}\n\n") + rest)), k, body, rest, name);
  }

  /** Scanning resumes after the `}` of a block whose key starts with `name`. */
  lemma BlockScan(s: string, k: string, body: string, rest: string, name: string)
    requires s == k + ("{" + ((body + "}\n\n") + rest))
    requires IsWordName(name) && AllIn(k, SelectorSuffix) && StartsWith(k, name)
    requires 0 < |body| && AllIn(body, RuleBody)
    ensures FindRules(s, name) == [Rule(k[|name|..], body)] + FindRules(rest, name)
  {
    var len := |k| + |body| + 2;
    var tail := "\n\n" + rest;
    BlockIsRuleMatch(s, k, body, rest, name);
    FindRulesAtMatch(s, name, Rule(k[|name|..], body), len, tail);
    SkipBlankLines(tail, rest, name);
  }

  lemma SkipBlankLines(tail: string, rest: string, name: string)
    requires IsWordName(name) && tail == "\n\n" + rest
    ensures FindRules(tail, name) == FindRules(rest, name)
  {
    SkipTail("\n\n", rest, name);
  }

  /** A generated block whose key starts with `name` is a match of the rule pattern
      that ends before the blank line. */
  lemma BlockIsRuleMatch(s: string, k: string, body: string, rest: string, name: string)
    requires s == k + ("{" + ((body + "}\n\n") + rest))
    requires AllIn(k, SelectorSuffix) && StartsWith(k, name)
    requires 0 < |body| && AllIn(body, RuleBody)
    ensures IsRuleMatch(s, name, Rule(k[|name|..], body), |k| + |body| + 2)
    ensures |k| + |body| + 2 <= |s| && s[|k| + |body| + 2..] == "\n\n" + rest
  {
    var suffix := k[|name|..];
    var block := k + "{" + body + "}";
    assert AllIn(suffix, SelectorSuffix) by {
      assert forall i :: 0 <= i < |suffix| ==> suffix[i] == k[|name| + i];
    }
    assert name + suffix == k;
    assert s == block + ("\n\n" + rest);
    assert StartsWith(s, name + suffix + "{" + body + "}");
  }

  /** The entries the re-extraction assigns for one allow-listed name. */
  ghost function KeptEntries(d: StyleDict, keep: seq<string>, ks: seq<string>, name: string): (es: seq<(string, Properties)>)
    requires forall k :: k in ks ==> k in d.table
    ensures forall e :: e in es ==> e.0 in ks && e.0 in keep && e.1 == d.table[e.0]
    ensures forall k :: k in ks && k in keep && StartsWith(k, name) ==> k in KeysOf(es)
  {
    if ks == [] then []
    else
      var head := if ks[0] in keep && StartsWith(ks[0], name) then [(ks[0], d.table[ks[0]])] else [];
      var es := head + KeptEntries(d, keep, ks[1..], name);
      KeysOfAppend(head, KeptEntries(d, keep, ks[1..], name));
      es
  }

  /** What scanning a generated style-sheet for one name relies on about the model. */
  ghost predicate ScansAs(d: StyleDict, name: string) {
    && IsWordName(name)
    && ValidModel(d)
    && forall k :: k in d.table ==>
         && AllIn(k, SelectorSuffix) && NotInside(k, name)
         && |d.table[k].order| > 0 && IsColorProperties(d.table[k])
  }

  lemma RoundTrippableScans(d: StyleDict, name: string)
    requires RoundTrippable(d) && name in StylableWidgets
    ensures ScansAs(d, name)
  {
    var w :| 0 <= w < |StylableWidgets| && StylableWidgets[w] == name;
    WidgetNameIsWord(w);
    forall k | k in d.table ensures NotInside(k, name) {
      RoundTripKeyNotInside(k, w);
    }
  }

  lemma RuleEntriesCons(name: string, rule: Rule, rules: seq<Rule>, props: Properties)
    requires ParseProperties(rule.body) == props && |props.order| > 0
    ensures RuleEntries(name, [rule] + rules) == [(name + rule.suffix, props)] + RuleEntries(name, rules)
  {
    assert ([rule] + rules)[0] == rule && ([rule] + rules)[1..] == rules;
  }

  lemma {:induction false} SerializedRuleEntries(d: StyleDict, keep: seq<string>, ks: seq<string>, name: string)
    requires ScansAs(d, name)
    requires forall k :: k in ks ==> k in d.table
    ensures RuleEntries(name, FindRules(SerializeKeys(d, keep, ks), name)) == KeptEntries(d, keep, ks, name)
  {
    if ks == [] {
      assert FindRules("", name) == [];
    } else {
      SerializedRuleEntries(d, keep, ks[1..], name);
      SerializedRuleEntriesStep(d, keep, ks, name);
    }
  }

  lemma SerializedRuleEntriesStep(d: StyleDict, keep: seq<string>, ks: seq<string>, name: string)
    requires ScansAs(d, name)
    requires ks != [] && forall k :: k in ks ==> k in d.table
    requires RuleEntries(name, FindRules(SerializeKeys(d, keep, ks[1..]), name)) == KeptEntries(d, keep, ks[1..], name)
    ensures RuleEntries(name, FindRules(SerializeKeys(d, keep, ks), name)) == KeptEntries(d, keep, ks, name)
  {
    var k := ks[0];
    var props := d.table[k];
    var rest := SerializeKeys(d, keep, ks[1..]);
    var tailEntries := KeptEntries(d, keep, ks[1..], name);
    var text := SerializeKeys(d, keep, ks);
    if k in keep {
      assert text == RuleText(k, props) + rest;
      RuleTextScan(k, props, rest, name);
      if StartsWith(k, name) {
        var rule := Rule(k[|name|..], "\n" + DeclLines(props, props.order));
        assert FindRules(text, name) == [rule] + FindRules(rest, name);
        KeptBlockEntries(k, props, FindRules(rest, name), name);
        assert RuleEntries(name, FindRules(text, name)) == [(k, props)] + tailEntries;
        assert KeptEntries(d, keep, ks, name) == [(k, props)] + tailEntries;
        assert RuleEntries(name, FindRules(text, name)) == KeptEntries(d, keep, ks, name);
      } else {
        assert FindRules(text, name) == FindRules(rest, name);
        assert KeptEntries(d, keep, ks, name) == tailEntries;
        assert RuleEntries(name, FindRules(text, name)) == KeptEntries(d, keep, ks, name);
      }
    } else {
      assert text == rest;
      assert KeptEntries(d, keep, ks, name) == tailEntries;
      assert RuleEntries(name, FindRules(text, name)) == KeptEntries(d, keep, ks, name);
    }
  }

  lemma KeptBlockEntries(k: string, props: Properties, rules: seq<Rule>, name: string)
    requires props.Valid() && IsColorProperties(props) && |props.order| > 0
    requires StartsWith(k, name)
    ensures RuleEntries(name, [Rule(k[|name|..], "\n" + DeclLines(props, props.order))] + rules)
              == [(k, props)] + RuleEntries(name, rules)
  {
    var rule := Rule(k[|name|..], "\n" + DeclLines(props, props.order));
    RuleBodyProperties(props);
    RuleEntriesCons(name, rule, rules, props);
    assert name + rule.suffix == k;
  }

  /** Every assignment the re-extraction makes carries a kept key and its value. */
  lemma {:induction false} SerializedAssignmentsFaithful(d: StyleDict, keep: seq<string>, names: seq<string>)
    requires ValidModel(d)
    requires forall n :: n in names ==> ScansAs(d, n)
    ensures forall e :: e in Assignments(Serialize(d, keep), names) ==>
              e.0 in d.table && e.0 in keep && e.1 == d.table[e.0]
  {
    if names != [] {
      var text := Serialize(d, keep);
      SerializedRuleEntries(d, keep, d.order, names[0]);
      SerializedAssignmentsFaithful(d, keep, names[1..]);
    }
  }

  /** Every kept key that starts with one of the scanned names is assigned. */
  lemma {:induction false} SerializedAssignmentsCover(d: StyleDict, keep: seq<string>, names: seq<string>, k: string, n: string)
    requires ValidModel(d)
    requires forall n' :: n' in names ==> ScansAs(d, n')
    requires k in d.table && k in keep && n in names && StartsWith(k, n)
    ensures k in KeysOf(Assignments(Serialize(d, keep), names))
  {
    var text := Serialize(d, keep);
    var head := RuleEntries(names[0], FindRules(text, names[0]));
    KeysOfAppend(head, Assignments(text, names[1..]));
    if n == names[0] {
      SerializedRuleEntries(d, keep, d.order, n);
    } else {
      SerializedAssignmentsCover(d, keep, names[1..], k, n);
    }
  }

  /** The round trip: extracting the style-sheet generated with any keep list gives
      back exactly the kept entries of the model, each with its properties in their
      order, provided the model satisfies the round-trip condition. */
  lemma RoundTrip(d: StyleDict, keep: seq<string>)
    requires RoundTrippable(d)
    ensures Extract(Serialize(d, keep)).table == map k | k in d.table && k in keep :: d.table[k]
  {
    var es := Assignments(Serialize(d, keep), StylableWidgets);
    forall n | n in StylableWidgets ensures ScansAs(d, n) {
      RoundTrippableScans(d, n);
    }
    SerializedAssignmentsFaithful(d, keep, StylableWidgets);
    forall k | k in d.table && k in keep ensures k in KeysOf(es) {
      var w :| 0 <= w < |StylableWidgets| && StartsWith(k, StylableWidgets[w]);
      SerializedAssignmentsCover(d, keep, StylableWidgets, k, StylableWidgets[w]);
    }
    KeptAssignments(d.table, keep, es);
  }

  /** Assigning pairs that each carry a kept key and its value, and that cover every
      kept key, yields exactly the kept part of the table. */
  lemma KeptAssignments(t: map<string, Properties>, keep: seq<string>, es: seq<(string, Properties)>)
    requires forall e :: e in es ==> e.0 in t && e.0 in keep && e.1 == t[e.0]
    requires forall k :: k in t && k in keep ==> k in KeysOf(es)
    ensures PutAll(Empty(), es).table == map k | k in t && k in keep :: t[k]
  {
    var r := PutAll(Empty(), es);
    var m := map k | k in t && k in keep :: t[k];
    forall k ensures (k in r.table <==> k in m) && (k in m ==> r.table[k] == m[k]) {
      PutAllLastWins(Empty(), es, k);
      var v := LastValue(es, k);
      if v.Some? {
        var j :| 0 <= j < |es| && es[j] == (k, v.value);
        assert es[j] in es;
      }
    }
    assert r.table == m;
  }

  /** With every key kept, the model is reproduced key for key. */
  lemma RoundTripAllKept(d: StyleDict)
    requires RoundTrippable(d)
    ensures Extract(Serialize(d, d.order)).table == d.table
  {
    RoundTrip(d, d.order);
  }

  /** A colour change made through the dialog keeps the round-trip condition. */
  lemma SetColorKeepsRoundTrippable(d: StyleDict, item: string, prop: string, color: string)
    requires RoundTrippable(d)
    requires item in d.table && prop in d.table[item].table
    requires IsColorName(color)
    ensures RoundTrippable(SetColor(d, item, prop, color).model)
  {
    var d' := SetColor(d, item, prop, color).model;
    ColorNameIsColorValue(color);
    forall k | k in d'.table
      ensures IsRoundTripKey(k) && |d'.table[k].order| > 0 && IsColorProperties(d'.table[k])
    {
      if k == item {
        assert d'.table[k].order == d.table[k].order;
      } else {
        assert d'.table[k] == d.table[k];
      }
    }
  }

  /** After such a change the regenerated style-sheet re-extracts with the new colour
      in place and the properties in their old order. */
  lemma SetColorRoundTrip(d: StyleDict, item: string, prop: string, color: string, keep: seq<string>)
    requires RoundTrippable(d)
    requires item in d.table && prop in d.table[item].table && item in keep
    requires IsColorName(color)
    ensures var e := Extract(Serialize(SetColor(d, item, prop, color).model, keep));
            && item in e.table
            && e.table[item].table == d.table[item].table[prop := color]
            && e.table[item].order == d.table[item].order
  {
    var d' := SetColor(d, item, prop, color).model;
    SetColorKeepsRoundTrippable(d, item, prop, color);
    RoundTrip(d', keep);
  }
}
