/** The colour model of the style picker: what `_css_to_dict` extracts from a
    style-sheet, what `_dict_to_css` writes back, and the in-place colour update of
    `_change_color`, as functions of their inputs; and what they promise. */
module StyleModel {
  import opened OrderedDict
  import opened QssScan

  /** The allow-list of selector base names (`stylable_widgets`), in its order. */
  const StylableWidgets: seq<string> := [
    "QAbstractScrollArea", "QCheckBox", "QColumnView", "QComboBox",
    "QDateEdit", "QDateTimeEdit", "QDialog", "QDialogButtonBox",
    "QDockWidget", "QDoubleSpinBox", "QFrame", "QGroupBox",
    "QHeaderView", "QLabel", "QLineEdit", "QListView",
    "QListWidget", "QMainWindow", "QMenu", "QMenuBar",
    "QMessageBox", "QProgressBar", "QPushButton", "QRadioButton",
    "QScrollBar", "QSizeGrip", "QSlider", "QSpinBox",
    "QSplitter", "QStatusBar", "QTabBar", "QTabWidget",
    "QTableView", "QTableWidget", "QTextEdit", "QTimeEdit",
    "QToolBar", "QToolButton", "QToolBox", "QToolTip",
    "QTreeView", "QTreeWidget", "QWidget"
  ]

  /** Property name to colour string, in insertion order. */
  type Properties = Dict<string>

  /** Selector key (allow-listed name plus suffix) to its properties. */
  type StyleDict = Dict<Properties>

  /** Both levels of the model are well-formed insertion-ordered dictionaries. */
  ghost predicate ValidModel(d: StyleDict) {
    d.Valid() && forall k :: k in d.table ==> d.table[k].Valid()
  }

  /** The property dictionary of one rule body: its declarations, assigned in order. */
  function ParseProperties(body: string): (r: Properties)
    ensures r.Valid()
  {
    PutAll(Empty(), FindDecls(body))
  }

  /** The assignments one allow-listed name makes: one per rule match, left to right,
      skipping a rule whose body holds no declaration. */
  function RuleEntries(name: string, rules: seq<Rule>): seq<(string, Properties)>
  {
    if rules == [] then []
    else
      var props := ParseProperties(rules[0].body);
      (if |props.order| != 0 then [(name + rules[0].suffix, props)] else [])
      + RuleEntries(name, rules[1..])
  }

  /** All assignments `_css_to_dict` makes for the names `names`: by name first, then
      by position in the text. */
  function Assignments(text: string, names: seq<string>): seq<(string, Properties)>
  {
    if names == [] then []
    else RuleEntries(names[0], FindRules(text, names[0])) + Assignments(text, names[1..])
  }

  /** The model `_css_to_dict` builds from `text`. */
  function Extract(text: string): StyleDict
  {
    PutAll(Empty(), Assignments(text, StylableWidgets))
  }

  /** The entries of one name all have keys starting with that name. */
  lemma {:induction false} KeysStartWithName(name: string, rules: seq<Rule>)
    ensures forall k :: k in KeysOf(RuleEntries(name, rules)) ==> StartsWith(k, name)
    decreases |rules|
  {
    if rules != [] {
      var props := ParseProperties(rules[0].body);
      var head := if |props.order| != 0 then [(name + rules[0].suffix, props)] else [];
      KeysStartWithName(name, rules[1..]);
      KeysOfAppend(head, RuleEntries(name, rules[1..]));
      assert (name + rules[0].suffix)[..|name|] == name;
    }
  }

  /** A key that no name of `names` starts is never assigned for `names`. */
  lemma {:induction false} AssignmentsKeyAbsent(text: string, names: seq<string>, k: string)
    requires forall i :: 0 <= i < |names| ==> !StartsWith(k, names[i])
    ensures k !in KeysOf(Assignments(text, names))
    decreases |names|
  {
    if names != [] {
      var es := RuleEntries(names[0], FindRules(text, names[0]));
      KeysStartWithName(names[0], FindRules(text, names[0]));
      AssignmentsKeyAbsent(text, names[1..], k);
      KeysOfAppend(es, Assignments(text, names[1..]));
    }
  }

  /** Scanning for `a + b` is scanning for `a`, then for `b`. */
  lemma {:induction false} AssignmentsAppend(text: string, a: seq<string>, b: seq<string>)
    ensures Assignments(text, a + b) == Assignments(text, a) + Assignments(text, b)
    decreases |a|
  {
    if a == [] {
      assert a + b == b;
    } else {
      assert (a + b)[0] == a[0] && (a + b)[1..] == a[1..] + b;
      AssignmentsAppend(text, a[1..], b);
    }
  }

  /** The assignments of `before + [name] + after`, split around those of `name`. */
  lemma SplitAssignments(text: string, names: seq<string>, before: seq<string>, name: string,
                         after: seq<string>)
    requires names == before + [name] + after
    ensures Assignments(text, names) ==
              Assignments(text, before) + RuleEntries(name, FindRules(text, name)) + Assignments(text, after)
  {
    var one := [name];
    var a, b, c := Assignments(text, before), Assignments(text, one), Assignments(text, after);
    AssignmentsAppend(text, before + one, after);
    AssignmentsAppend(text, before, one);
    AssignmentsSingle(text, one, name);
  }

  lemma AssignmentsSingle(text: string, one: seq<string>, name: string)
    requires one == [name]
    ensures Assignments(text, one) == RuleEntries(name, FindRules(text, name))
  {
    assert one[1..] == [];
  }

  /** One declaration line of a generated block. */
  function DeclLine(prop: string, value: string): string {
    "   " + prop + ": " + value + ";\n"
  }

  /** The declaration lines of the properties `ks`. */
  function DeclLines(props: Properties, ks: seq<string>): string
    requires forall k :: k in ks ==> k in props.table
  {
    if ks == [] then ""
    else DeclLine(ks[0], props.table[ks[0]]) + DeclLines(props, ks[1..])
  }

  /** One block of the generated style-sheet. */
  function RuleText(key: string, props: Properties): string
    requires props.Valid()
  {
    key + "{\n" + DeclLines(props, props.order) + "}\n\n"
  }

  /** The blocks of the keys `ks` that the keep list holds, in the order of `ks`. */
  function SerializeKeys(d: StyleDict, keep: seq<string>, ks: seq<string>): string
    requires ValidModel(d)
    requires forall k :: k in ks ==> k in d.table
  {
    if ks == [] then ""
    else (if ks[0] in keep then RuleText(ks[0], d.table[ks[0]]) else "") + SerializeKeys(d, keep, ks[1..])
  }

  /** The style-sheet `_dict_to_css` writes: the model's entries in model order, only
      those whose key the keep list holds. */
  function Serialize(d: StyleDict, keep: seq<string>): string
    requires ValidModel(d)
  {
    SerializeKeys(d, keep, d.order)
  }

  datatype SetOutcome = Changed(model: StyleDict) | KeyError(key: string)

  /** `stylesheet_dict[item][prop] = color`: a missing item raises `KeyError`; a
      missing property is appended to the item's properties. */
  function SetColor(d: StyleDict, item: string, prop: string, color: string): (r: SetOutcome)
    requires ValidModel(d)
    ensures r.Changed? <==> item in d.table
    ensures r.KeyError? ==> r.key == item
    ensures r.Changed? ==>
      && ValidModel(r.model)
      && r.model.order == d.order
      && r.model.table.Keys == d.table.Keys
      && (forall k :: k in d.table && k != item ==> r.model.table[k] == d.table[k])
      && r.model.table[item].table == d.table[item].table[prop := color]
      && r.model.table[item].order ==
           (if prop in d.table[item].table then d.table[item].order else d.table[item].order + [prop])
  {
    if item !in d.table then KeyError(item)
    else Changed(Put(d, item, Put(d.table[item], prop, color)))
  }

  /** The colour strings `QColor.name()` yields: `#` and six lower-case hex digits. */
  predicate IsColorName(c: string) {
    |c| == 7 && c[0] == '#' && forall i :: 1 <= i < 7 ==> c[i] in "0123456789abcdef"
  }

  lemma ColorNameIsColorValue(c: string)
    requires IsColorName(c)
    ensures IsColorValue(c)
  {
    assert forall i :: 0 <= i < 6 ==> c[1..][i] == c[i + 1];
  }

  /** Every property name is a `[-\w]*` run and every value a `#\w+` colour. */
  ghost predicate IsColorProperties(props: Properties) {
    forall p :: p in props.table ==> AllIn(p, PropertyName) && IsColorValue(props.table[p])
  }

  /** An entry as `_css_to_dict` stores it for the allow-list `names`: the key is a
      name of `names` followed by `[ :\w]*` characters and, somewhere in the text, by
      `{`; the properties form a non-empty dictionary of colour declarations. */
  ghost predicate IsScannedEntry(names: seq<string>, key: string, props: Properties, text: string) {
    && (exists w :: 0 <= w < |names| && StartsWith(key, names[w])
                    && AllIn(key[|names[w]|..], SelectorSuffix))
    && Occurs(key + "{", text)
    && props.Valid() && |props.order| > 0
    && IsColorProperties(props)
  }

  /** An entry as `_css_to_dict` stores it, for the allow-list `stylable_widgets`. */
  ghost predicate IsExtractedEntry(key: string, props: Properties, text: string) {
    IsScannedEntry(StylableWidgets, key, props, text)
  }

  lemma OccursPrefix(p: string, q: string, s: string)
    requires Occurs(p + q, s)
    ensures Occurs(p, s)
  {
    var i :| 0 <= i <= |s| && StartsWith(s[i..], p + q);
    assert (p + q)[..|p|] == p;
    assert StartsWith(s[i..], p);
  }

  /** The properties of a rule body keep only `[-\w]*: #\w+;` declarations. */
  lemma ParsePropertiesShape(body: string)
    ensures IsColorProperties(ParseProperties(body))
  {
    var ds := FindDecls(body);
    var r := ParseProperties(body);
    FindDeclsSound(body);
    forall p | p in r.table
      ensures AllIn(p, PropertyName) && IsColorValue(r.table[p])
    {
      PutAllLastWins(Empty(), ds, p);
      var j :| 0 <= j < |ds| && ds[j] == (p, LastValue(ds, p).value);
      assert ds[j] in ds;
    }
  }

  lemma {:induction false} RuleEntriesShape(names: seq<string>, w: nat, rules: seq<Rule>, text: string)
    requires w < |names|
    requires forall rule :: rule in rules ==>
               && AllIn(rule.suffix, SelectorSuffix)
               && Occurs(names[w] + rule.suffix + "{" + rule.body + "}", text)
    ensures forall e :: e in RuleEntries(names[w], rules) ==> IsScannedEntry(names, e.0, e.1, text)
    decreases |rules|
  {
    if rules != [] {
      var name := names[w];
      var rule := rules[0];
      var key := name + rule.suffix;
      var props := ParseProperties(rule.body);
      RuleEntriesShape(names, w, rules[1..], text);
      if |props.order| != 0 {
        ParsePropertiesShape(rule.body);
        assert key + "{" + rule.body + "}" == (key + "{") + (rule.body + "}");
        OccursPrefix(key + "{", rule.body + "}", text);
        assert key[..|name|] == name && key[|name|..] == rule.suffix;
        assert IsScannedEntry(names, key, props, text);
      }
    }
  }

  lemma {:induction false} AssignmentsShape(text: string, names: seq<string>, i: nat)
    requires i <= |names|
    ensures forall e :: e in Assignments(text, names[i..]) ==> IsScannedEntry(names, e.0, e.1, text)
    decreases |names| - i
  {
    if i < |names| {
      var name := names[i];
      FindRulesSound(text, name);
      RuleEntriesShape(names, i, FindRules(text, name), text);
      assert names[i..][1..] == names[i + 1..];
      AssignmentsShape(text, names, i + 1);
    }
  }

  /** What `_css_to_dict` stores: every key is an allow-listed name followed by a run of
      space, colon and word characters that the text follows with `{`; every entry
      has at least one property; every property is a `[-\w]*` name with a `#\w+`
      value. */
  lemma ExtractShape(text: string)
    ensures ValidModel(Extract(text))
    ensures forall k :: k in Extract(text).table ==> IsExtractedEntry(k, Extract(text).table[k], text)
  {
    var es := Assignments(text, StylableWidgets);
    var r := Extract(text);
    assert StylableWidgets[0..] == StylableWidgets;
    AssignmentsShape(text, StylableWidgets, 0);
    forall k | k in r.table
      ensures IsExtractedEntry(k, r.table[k], text)
    {
      PutAllLastWins(Empty(), es, k);
      var v := LastValue(es, k);
      assert v.Some?;
      var j :| 0 <= j < |es| && es[j] == (k, v.value);
      assert es[j] in es;
    }
  }

  /** A key is stored iff some assignment names it, and it holds the value of its
      last assignment: a repeated key or property is overwritten by the later one. */
  lemma ExtractLastWins(text: string, k: string)
    ensures var es := Assignments(text, StylableWidgets);
            && (k in Extract(text).table <==> k in KeysOf(es))
            && (k in Extract(text).table ==> Extract(text).table[k] == LastValue(es, k).value)
  {
    PutAllLastWins(Empty(), Assignments(text, StylableWidgets), k);
  }

  /** The model's keys are the assigned keys, each once, ordered by their first
      assignment: by allow-list position first, then by position in the text; a
      repeated key keeps the place of its first occurrence. */
  lemma ExtractOrder(text: string)
    ensures var es := KeysOf(Assignments(text, StylableWidgets));
            var o := Extract(text).order;
            && (forall k :: k in o <==> k in es)
            && (forall a, b :: 0 <= a < b < |o| ==> FirstIndex(es, o[a]) < FirstIndex(es, o[b]))
  {
    var es := Assignments(text, StylableWidgets);
    PutAllOrder(Empty(), es);
    forall k ensures k in Extract(text).order <==> k in KeysOf(es) {
      PutAllLastWins(Empty(), es, k);
    }
  }

  lemma {:induction false} FindRulesAbsent(s: string, name: string)
    requires forall i :: 0 <= i <= |s| ==> !StartsWith(s[i..], name)
    ensures FindRules(s, name) == []
    decreases |s|
  {
    if s != [] {
      assert s[0..] == s;
      forall i | 0 <= i <= |s[1..]| ensures !StartsWith(s[1..][i..], name) {
        assert s[1..][i..] == s[i + 1..];
      }
      FindRulesAbsent(s[1..], name);
    }
  }

  lemma {:induction false} AssignmentsAbsent(text: string, names: seq<string>)
    requires forall w, j :: 0 <= w < |names| && 0 <= j <= |text| ==> !StartsWith(text[j..], names[w])
    ensures Assignments(text, names) == []
    decreases |names|
  {
    if names != [] {
      FindRulesAbsent(text, names[0]);
      forall w, j | 0 <= w < |names[1..]| && 0 <= j <= |text| ensures !StartsWith(text[j..], names[1..][w]) {
        assert names[1..][w] == names[w + 1];
      }
      AssignmentsAbsent(text, names[1..]);
    }
  }

  /** Text in which no allow-listed name occurs gives an empty model. */
  lemma ExtractWithoutNames(text: string)
    requires forall w, j :: 0 <= w < |StylableWidgets| && 0 <= j <= |text| ==>
               !StartsWith(text[j..], StylableWidgets[w])
    ensures Extract(text) == Empty()
  {
    AssignmentsAbsent(text, StylableWidgets);
  }

  /** The empty style-sheet gives an empty model. */
  lemma ExtractEmptyText()
    ensures Extract("") == Empty()
  {
    forall w, j | 0 <= w < |StylableWidgets| && 0 <= j <= 0
      ensures !StartsWith(""[j..], StylableWidgets[w])
    {
      WidgetNameIsWord(w);
    }
    ExtractWithoutNames("");
  }

  lemma {:induction false} SerializeKeysNothingKept(d: StyleDict, keep: seq<string>, ks: seq<string>)
    requires ValidModel(d)
    requires forall k :: k in ks ==> k in d.table && k !in keep
    ensures SerializeKeys(d, keep, ks) == ""
  {
    if ks != [] {
      SerializeKeysNothingKept(d, keep, ks[1..]);
    }
  }

  /** Nothing is written when the keep list holds no key of the model: an empty keep
      list, or one whose keys are all absent from the model, gives "". */
  lemma SerializeNothingKept(d: StyleDict, keep: seq<string>)
    requires ValidModel(d)
    requires forall k :: k in d.table ==> k !in keep
    ensures Serialize(d, keep) == ""
  {
    SerializeKeysNothingKept(d, keep, d.order);
  }

  lemma {:induction false} SerializeKeysMembership(d: StyleDict, keep1: seq<string>, keep2: seq<string>, ks: seq<string>)
    requires ValidModel(d)
    requires forall k :: k in ks ==> k in d.table && (k in keep1 <==> k in keep2)
    ensures SerializeKeys(d, keep1, ks) == SerializeKeys(d, keep2, ks)
  {
    if ks != [] {
      SerializeKeysMembership(d, keep1, keep2, ks[1..]);
    }
  }

  /** The keep list is read by membership only: its order, its duplicates and its
      keys that the model lacks do not change the output, which follows model order. */
  lemma SerializeKeepMembershipOnly(d: StyleDict, keep1: seq<string>, keep2: seq<string>)
    requires ValidModel(d)
    requires forall k :: k in d.table ==> (k in keep1 <==> k in keep2)
    ensures Serialize(d, keep1) == Serialize(d, keep2)
  {
    SerializeKeysMembership(d, keep1, keep2, d.order);
  }

  /** No entry of the model has an empty property dictionary. */
  ghost predicate NoEmptyEntry(d: StyleDict) {
    forall k :: k in d.table ==> |d.table[k].order| > 0
  }

  /** `_css_to_dict` never stores an empty entry, and a colour change keeps it so. */
  lemma ExtractNoEmptyEntry(text: string)
    ensures ValidModel(Extract(text)) && NoEmptyEntry(Extract(text))
  {
    ExtractShape(text);
  }

  lemma SetColorKeepsEntriesNonEmpty(d: StyleDict, item: string, prop: string, color: string)
    requires ValidModel(d) && NoEmptyEntry(d)
    requires SetColor(d, item, prop, color).Changed?
    ensures NoEmptyEntry(SetColor(d, item, prop, color).model)
  {
    var r := SetColor(d, item, prop, color).model;
    assert d.table[item].order <= r.table[item].order;
  }

  // One chunk of the allow-list: checking a few names per lemma keeps each proof obligation small.
  lemma WidgetNamesAreWords0(w: nat)
    requires 0 <= w < 4
    ensures IsWordName(StylableWidgets[w])
  {
    if w == 0 {
      assert StylableWidgets[0] == "QAbstractScrollArea";
    } else if w == 1 {
      assert StylableWidgets[1] == "QCheckBox";
    } else if w == 2 {
      assert StylableWidgets[2] == "QColumnView";
    } else if w == 3 {
      assert StylableWidgets[3] == "QComboBox";
    }
  }

  // One chunk of the allow-list: checking a few names per lemma keeps each proof obligation small.
  lemma WidgetNamesAreWords1(w: nat)
    requires 4 <= w < 8
    ensures IsWordName(StylableWidgets[w])
  {
    if w == 4 {
      assert StylableWidgets[4] == "QDateEdit";
    } else if w == 5 {
      assert StylableWidgets[5] == "QDateTimeEdit";
    } else if w == 6 {
      assert StylableWidgets[6] == "QDialog";
    } else if w == 7 {
      assert StylableWidgets[7] == "QDialogButtonBox";
    }
  }

  // One chunk of the allow-list: checking a few names per lemma keeps each proof obligation small.
  lemma WidgetNamesAreWords2(w: nat)
    requires 8 <= w < 12
    ensures IsWordName(StylableWidgets[w])
  {
    if w == 8 {
      assert StylableWidgets[8] == "QDockWidget";
    } else if w == 9 {
      assert StylableWidgets[9] == "QDoubleSpinBox";
    } else if w == 10 {
      assert StylableWidgets[10] == "QFrame";
    } else if w == 11 {
      assert StylableWidgets[11] == "QGroupBox";
    }
  }

  // One chunk of the allow-list: checking a few names per lemma keeps each proof obligation small.
  lemma WidgetNamesAreWords3(w: nat)
    requires 12 <= w < 16
    ensures IsWordName(StylableWidgets[w])
  {
    if w == 12 {
      assert StylableWidgets[12] == "QHeaderView";
    } else if w == 13 {
      assert StylableWidgets[13] == "QLabel";
    } else if w == 14 {
      assert StylableWidgets[14] == "QLineEdit";
    } else if w == 15 {
      assert StylableWidgets[15] == "QListView";
    }
  }

  // One chunk of the allow-list: checking a few names per lemma keeps each proof obligation small.
  lemma WidgetNamesAreWords4(w: nat)
    requires 16 <= w < 20
    ensures IsWordName(StylableWidgets[w])
  {
    if w == 16 {
      assert StylableWidgets[16] == "QListWidget";
    } else if w == 17 {
      assert StylableWidgets[17] == "QMainWindow";
    } else if w == 18 {
      assert StylableWidgets[18] == "QMenu";
    } else if w == 19 {
      assert StylableWidgets[19] == "QMenuBar";
    }
  }

  // One chunk of the allow-list: checking a few names per lemma keeps each proof obligation small.
  lemma WidgetNamesAreWords5(w: nat)
    requires 20 <= w < 24
    ensures IsWordName(StylableWidgets[w])
  {
    if w == 20 {
      assert StylableWidgets[20] == "QMessageBox";
    } else if w == 21 {
      assert StylableWidgets[21] == "QProgressBar";
    } else if w == 22 {
      assert StylableWidgets[22] == "QPushButton";
    } else if w == 23 {
      assert StylableWidgets[23] == "QRadioButton";
    }
  }

  // One chunk of the allow-list: checking a few names per lemma keeps each proof obligation small.
  lemma WidgetNamesAreWords6(w: nat)
    requires 24 <= w < 28
    ensures IsWordName(StylableWidgets[w])
  {
    if w == 24 {
      assert StylableWidgets[24] == "QScrollBar";
    } else if w == 25 {
      assert StylableWidgets[25] == "QSizeGrip";
    } else if w == 26 {
      assert StylableWidgets[26] == "QSlider";
    } else if w == 27 {
      assert StylableWidgets[27] == "QSpinBox";
    }
  }

  // One chunk of the allow-list: checking a few names per lemma keeps each proof obligation small.
  lemma WidgetNamesAreWords7(w: nat)
    requires 28 <= w < 32
    ensures IsWordName(StylableWidgets[w])
  {
    if w == 28 {
      assert StylableWidgets[28] == "QSplitter";
    } else if w == 29 {
      assert StylableWidgets[29] == "QStatusBar";
    } else if w == 30 {
      assert StylableWidgets[30] == "QTabBar";
    } else if w == 31 {
      assert StylableWidgets[31] == "QTabWidget";
    }
  }

  // One chunk of the allow-list: checking a few names per lemma keeps each proof obligation small.
  lemma WidgetNamesAreWords8(w: nat)
    requires 32 <= w < 36
    ensures IsWordName(StylableWidgets[w])
  {
    if w == 32 {
      assert StylableWidgets[32] == "QTableView";
    } else if w == 33 {
      assert StylableWidgets[33] == "QTableWidget";
    } else if w == 34 {
      assert StylableWidgets[34] == "QTextEdit";
    } else if w == 35 {
      assert StylableWidgets[35] == "QTimeEdit";
    }
  }

  // One chunk of the allow-list: checking a few names per lemma keeps each proof obligation small.
  lemma WidgetNamesAreWords9(w: nat)
    requires 36 <= w < 40
    ensures IsWordName(StylableWidgets[w])
  {
    if w == 36 {
      assert StylableWidgets[36] == "QToolBar";
    } else if w == 37 {
      assert StylableWidgets[37] == "QToolButton";
    } else if w == 38 {
      assert StylableWidgets[38] == "QToolBox";
    } else if w == 39 {
      assert StylableWidgets[39] == "QToolTip";
    }
  }

  // One chunk of the allow-list: checking a few names per lemma keeps each proof obligation small.
  lemma WidgetNamesAreWords10(w: nat)
    requires 40 <= w < 43
    ensures IsWordName(StylableWidgets[w])
  {
    if w == 40 {
      assert StylableWidgets[40] == "QTreeView";
    } else if w == 41 {
      assert StylableWidgets[41] == "QTreeWidget";
    } else if w == 42 {
      assert StylableWidgets[42] == "QWidget";
    }
  }

  /** Every allow-listed name is a non-empty run of word characters. */
  lemma WidgetNameIsWord(w: nat)
    requires w < |StylableWidgets|
    ensures IsWordName(StylableWidgets[w])
  {
    if w < 4 {
      WidgetNamesAreWords0(w);
    } else if w < 8 {
      WidgetNamesAreWords1(w);
    } else if w < 12 {
      WidgetNamesAreWords2(w);
    } else if w < 16 {
      WidgetNamesAreWords3(w);
    } else if w < 20 {
      WidgetNamesAreWords4(w);
    } else if w < 24 {
      WidgetNamesAreWords5(w);
    } else if w < 28 {
      WidgetNamesAreWords6(w);
    } else if w < 32 {
      WidgetNamesAreWords7(w);
    } else if w < 36 {
      WidgetNamesAreWords8(w);
    } else if w < 40 {
      WidgetNamesAreWords9(w);
    } else if w < 43 {
      WidgetNamesAreWords10(w);
    }
  }
}
