/** Why the round trip needs its condition: a key in which an allow-listed name occurs
    after position 0 is scanned twice, and the second scan overwrites another entry. */
module RoundTripLimit {
  import opened OrderedDict
  import opened QssScan
  import opened StyleModel
  import opened RoundTrip

  /** A property dictionary holding only `color`. */
  function OneColour(c: string): (p: Properties)
    ensures p.Valid() && p.order == ["color"] && p.table == map["color" := c]
  {
    Dict(["color"], map["color" := c])
  }

  /** The model `_css_to_dict` builds for `QWidget QLabel{color: #fff;} QLabel{color: #000;}`:
      `QLabel` is scanned first, and its last match in the text is `#000`; the
      selector `QWidget QLabel` is found when `QWidget` is scanned. */
  function NestedNameModel(): (d: StyleDict)
    ensures ValidModel(d) && d.order == ["QLabel", "QWidget QLabel"]
  {
    Dict(["QLabel", "QWidget QLabel"],
         map["QLabel" := OneColour("#000"), "QWidget QLabel" := OneColour("#fff")])
  }

  /** Writing the whole model out and reading it back changes the colour of `QLabel`
      to the one of `QWidget QLabel`: the generated text holds `QLabel{` twice. */
  lemma RoundTripNeedsCondition()
    ensures !RoundTrippable(NestedNameModel())
    ensures var d := NestedNameModel();
            var back := Extract(Serialize(d, d.order));
            && "QLabel" in back.table
            && back.table["QLabel"] == OneColour("#fff")
            && d.table["QLabel"] == OneColour("#000")
            && back.table != d.table
  {
    var d := NestedNameModel();
    NestedKeyNotRoundTrip();
    NestedRoundTrip(d, Serialize(d, d.order));
    ColoursDiffer();
  }

  /** Re-extracting the generated text gives `QLabel` the colour `#fff`. */
  lemma NestedRoundTrip(d: StyleDict, text: string)
    requires d == NestedNameModel() && text == Serialize(d, d.order)
    ensures "QLabel" in Extract(text).table && Extract(text).table["QLabel"] == OneColour("#fff")
  {
    SerializeNested(text);
    var rules := ScanNested(text);
    ExtractNestedLabel(text, rules);
  }

  lemma ColoursDiffer()
    ensures OneColour("#fff") != OneColour("#000")
  {
    assert OneColour("#fff").table["color"][1] != OneColour("#000").table["color"][1];
  }

  /** `QLabel` starts at position 8 of the key `QWidget QLabel`. */
  lemma NestedKeyNotRoundTrip()
    ensures !IsRoundTripKey("QWidget QLabel")
  {
    var k := "QWidget QLabel";
    assert StylableWidgets[13] == "QLabel";
    assert k[8..] == "QLabel";
    assert StartsWith(k[8..], StylableWidgets[13]);
  }

  /** The text `_dict_to_css` writes for the model, keeping every key. */
  lemma SerializeNested(text: string)
    requires text == Serialize(NestedNameModel(), NestedNameModel().order)
    ensures text == RuleText("QLabel", OneColour("#000")) + (RuleText("QWidget QLabel", OneColour("#fff")) + "")
  {
    var d := NestedNameModel();
    assert d.order[1..] == ["QWidget QLabel"] && d.order[1..][1..] == [];
  }

  /** Both blocks of the text match the rule pattern for `QLabel`. */
  lemma ScanNested(text: string) returns (rules: seq<Rule>)
    requires text == RuleText("QLabel", OneColour("#000")) + (RuleText("QWidget QLabel", OneColour("#fff")) + "")
    ensures FindRules(text, "QLabel") == rules
    ensures rules == [Rule("", "\n" + DeclLines(OneColour("#000"), ["color"])),
                      Rule("", "\n" + DeclLines(OneColour("#fff"), ["color"]))]
  {
    var p0, p1 := OneColour("#000"), OneColour("#fff");
    var rest := RuleText("QWidget QLabel", p1) + "";
    ColourIsDeclaration(p0, "#000");
    NameIsSelector("QLabel");
    assert NotInside("QLabel", "QLabel");
    RuleTextScan("QLabel", p0, rest, "QLabel");
    assert "QLabel"[6..] == "";
    NestedBlockScan(rest);
    rules := FindRules(text, "QLabel");
  }

  lemma ColourIsDeclaration(p: Properties, c: string)
    requires p == OneColour(c) && (c == "#000" || c == "#fff")
    ensures IsColorProperties(p) && |p.order| > 0
  {
    assert AllIn(c[1..], Word);
    assert AllIn("color", PropertyName);
  }

  lemma NameIsSelector(name: string)
    requires name == "QLabel"
    ensures IsWordName(name) && AllIn(name, SelectorSuffix)
  {
  }

  /** Scanning `QWidget QLabel{...}` for `QLabel` skips `QWidget ` and then matches. */
  lemma NestedBlockScan(t: string)
    requires t == RuleText("QWidget QLabel", OneColour("#fff")) + ""
    ensures FindRules(t, "QLabel") == [Rule("", "\n" + DeclLines(OneColour("#fff"), ["color"]))]
  {
    var p1 := OneColour("#fff");
    var body := "\n" + DeclLines(p1, p1.order);
    var block := "QLabel" + ("{" + ((body + "}\n\n") + ""));
    NestedBlockText(t, block, body);
    SkipWordBefore(t, block);
    ColourIsDeclaration(p1, "#fff");
    LabelBlockScan(block, body, p1);
  }

  /** A block whose key is `QLabel` itself is one match with an empty suffix. */
  lemma LabelBlockScan(block: string, body: string, p: Properties)
    requires p.Valid() && IsColorProperties(p)
    requires body == "\n" + DeclLines(p, p.order)
    requires block == "QLabel" + ("{" + ((body + "}\n\n") + ""))
    ensures FindRules(block, "QLabel") == [Rule("", body)]
  {
    DeclLinesBraceFree(p, p.order);
    AllInAppend("\n", DeclLines(p, p.order), RuleBody);
    NameIsSelector("QLabel");
    RuleBlockMatch("QLabel", body, "", "QLabel");
    assert "QLabel"[6..] == "";
  }

  lemma NestedBlockText(t: string, block: string, body: string)
    requires t == RuleText("QWidget QLabel", OneColour("#fff")) + ""
    requires body == "\n" + DeclLines(OneColour("#fff"), OneColour("#fff").order)
    requires block == "QLabel" + ("{" + ((body + "}\n\n") + ""))
    ensures t == "QWidget " + block
  {
  }

  /** No match for `QLabel` starts inside `QWidget `. */
  lemma SkipWordBefore(t: string, block: string)
    requires t == "QWidget " + block
    ensures FindRules(t, "QLabel") == FindRules(block, "QLabel")
  {
    var w := "QWidget ";
    forall i | 0 <= i < |w| ensures RuleAt((w + block)[i..], "QLabel") == None {
      var u := (w + block)[i..];
      if i == 0 {
        assert u[1] == 'W';
      } else {
        assert u[0] == w[i] != 'Q';
      }
      assert !StartsWith(u, "QLabel");
    }
    SkipNoRules(w, block, "QLabel");
  }

  /** Re-extracting the text: the last `QLabel` entry is the one of the second block. */
  lemma ExtractNestedLabel(text: string, rules: seq<Rule>)
    requires FindRules(text, "QLabel") == rules
    requires rules == [Rule("", "\n" + DeclLines(OneColour("#000"), ["color"])),
                       Rule("", "\n" + DeclLines(OneColour("#fff"), ["color"]))]
    ensures "QLabel" in Extract(text).table && Extract(text).table["QLabel"] == OneColour("#fff")
  {
    var es := LabelEntries(rules);
    WidgetsAroundLabel();
    LaterNamesNotPrefix(StylableWidgets[14..]);
    var early, late :=
      LabelAssignments(text, es, StylableWidgets, StylableWidgets[..13], StylableWidgets[14..]);
    LabelLastValue(Assignments(text, StylableWidgets), early, es, late);
    ExtractLastWins(text, "QLabel");
  }

  /** The assignments of a name list holding `QLabel` once, split around those of
      `QLabel`; no later name assigns the key `QLabel`. */
  lemma LabelAssignments(text: string, es: seq<(string, Properties)>,
                         names: seq<string>, before: seq<string>, after: seq<string>)
    returns (early: seq<(string, Properties)>, late: seq<(string, Properties)>)
    requires names == before + ["QLabel"] + after
    requires forall i :: 0 <= i < |after| ==> !StartsWith("QLabel", after[i])
    requires es == RuleEntries("QLabel", FindRules(text, "QLabel"))
    ensures Assignments(text, names) == early + es + late
    ensures "QLabel" !in KeysOf(late)
  {
    SplitAssignments(text, names, before, "QLabel", after);
    AssignmentsKeyAbsent(text, after, "QLabel");
    early, late := Assignments(text, before), Assignments(text, after);
  }

  lemma WidgetsAroundLabel()
    ensures StylableWidgets == StylableWidgets[..13] + ["QLabel"] + StylableWidgets[14..]
  {
    assert StylableWidgets[13] == "QLabel";
    assert StylableWidgets == StylableWidgets[..13] + [StylableWidgets[13]] + StylableWidgets[14..];
  }

  lemma LabelLastValue(all: seq<(string, Properties)>, early: seq<(string, Properties)>,
                       es: seq<(string, Properties)>, late: seq<(string, Properties)>)
    requires all == early + es + late && "QLabel" !in KeysOf(late)
    requires "QLabel" in KeysOf(es) && LastValue(es, "QLabel") == Some(OneColour("#fff"))
    ensures "QLabel" in KeysOf(all) && LastValue(all, "QLabel") == Some(OneColour("#fff"))
  {
    LastValueAppend(early + es, late, "QLabel");
    LastValueAppend(early, es, "QLabel");
  }

  /** The entries `_css_to_dict` makes for the two `QLabel` matches. */
  lemma LabelEntries(rules: seq<Rule>) returns (es: seq<(string, Properties)>)
    requires rules == [Rule("", "\n" + DeclLines(OneColour("#000"), ["color"])),
                       Rule("", "\n" + DeclLines(OneColour("#fff"), ["color"]))]
    ensures es == RuleEntries("QLabel", rules)
    ensures "QLabel" in KeysOf(es) && LastValue(es, "QLabel") == Some(OneColour("#fff"))
  {
    var p0, p1 := OneColour("#000"), OneColour("#fff");
    ColourIsDeclaration(p0, "#000");
    ColourIsDeclaration(p1, "#fff");
    RuleBodyProperties(p0);
    RuleBodyProperties(p1);
    es := TwoRuleEntries("QLabel", rules, p0, p1);
    LastOfTwo(es, "QLabel", p0, p1);
  }

  /** Two matches with an empty suffix, each with declarations, give two entries for
      the name itself. */
  lemma TwoRuleEntries(name: string, rules: seq<Rule>, p0: Properties, p1: Properties)
    returns (es: seq<(string, Properties)>)
    requires |rules| == 2 && rules[0].suffix == "" && rules[1].suffix == ""
    requires ParseProperties(rules[0].body) == p0 && |p0.order| > 0
    requires ParseProperties(rules[1].body) == p1 && |p1.order| > 0
    ensures es == RuleEntries(name, rules) && es == [(name, p0), (name, p1)]
  {
    assert rules == [rules[0]] + ([rules[1]] + []);
    assert name + "" == name;
    RuleEntriesCons(name, rules[1], [], p1);
    RuleEntriesCons(name, rules[0], [rules[1]] + [], p0);
    es := RuleEntries(name, rules);
  }

  lemma LastOfTwo(es: seq<(string, Properties)>, k: string, p0: Properties, p1: Properties)
    requires es == [(k, p0), (k, p1)]
    ensures k in KeysOf(es) && LastValue(es, k) == Some(p1)
  {
    assert es[1..] == [(k, p1)] && es[1..][1..] == [];
  }

  /** No allow-listed name after `QLabel` is a prefix of `QLabel`. */
  lemma LaterNamesNotPrefix(late: seq<string>)
    requires late == StylableWidgets[14..]
    ensures forall i :: 0 <= i < |late| ==> !StartsWith("QLabel", late[i])
  {
    forall i | 0 <= i < |late| ensures !StartsWith("QLabel", late[i]) {
      assert late[i] == StylableWidgets[14 + i];
      if i < 10 {
        LaterNamesNotPrefix0(14 + i);
      } else if i < 20 {
        LaterNamesNotPrefix1(14 + i);
      } else {
        LaterNamesNotPrefix2(14 + i);
      }
    }
  }

  /** A name that differs from `s` at position `j` does not start `s`. */
  lemma DiffersAt(s: string, n: string, j: nat)
    requires j < |s| && j < |n| && s[j] != n[j]
    ensures !StartsWith(s, n)
  {
  }

  // One chunk of the names after `QLabel`: a few names per lemma keeps each proof obligation small.
  lemma LaterNamesNotPrefix0(i: nat)
    requires 14 <= i < 24
    ensures !StartsWith("QLabel", StylableWidgets[i])
  {
    if i == 14 {
      assert StylableWidgets[14] == "QLineEdit";
      DiffersAt("QLabel", "QLineEdit", 2);
    } else if i == 15 {
      assert StylableWidgets[15] == "QListView";
      DiffersAt("QLabel", "QListView", 2);
    } else if i == 16 {
      assert StylableWidgets[16] == "QListWidget";
      DiffersAt("QLabel", "QListWidget", 2);
    } else if i == 17 {
      assert StylableWidgets[17] == "QMainWindow";
      DiffersAt("QLabel", "QMainWindow", 1);
    } else if i == 18 {
      assert StylableWidgets[18] == "QMenu";
      DiffersAt("QLabel", "QMenu", 1);
    } else if i == 19 {
      assert StylableWidgets[19] == "QMenuBar";
      DiffersAt("QLabel", "QMenuBar", 1);
    } else if i == 20 {
      assert StylableWidgets[20] == "QMessageBox";
      DiffersAt("QLabel", "QMessageBox", 1);
    } else if i == 21 {
      assert StylableWidgets[21] == "QProgressBar";
      DiffersAt("QLabel", "QProgressBar", 1);
    } else if i == 22 {
      assert StylableWidgets[22] == "QPushButton";
      DiffersAt("QLabel", "QPushButton", 1);
    } else if i == 23 {
      assert StylableWidgets[23] == "QRadioButton";
      DiffersAt("QLabel", "QRadioButton", 1);
    }
  }

  // One chunk of the names after `QLabel`: a few names per lemma keeps each proof obligation small.
  lemma LaterNamesNotPrefix1(i: nat)
    requires 24 <= i < 34
    ensures !StartsWith("QLabel", StylableWidgets[i])
  {
    if i == 24 {
      assert StylableWidgets[24] == "QScrollBar";
      DiffersAt("QLabel", "QScrollBar", 1);
    } else if i == 25 {
      assert StylableWidgets[25] == "QSizeGrip";
      DiffersAt("QLabel", "QSizeGrip", 1);
    } else if i == 26 {
      assert StylableWidgets[26] == "QSlider";
      DiffersAt("QLabel", "QSlider", 1);
    } else if i == 27 {
      assert StylableWidgets[27] == "QSpinBox";
      DiffersAt("QLabel", "QSpinBox", 1);
    } else if i == 28 {
      assert StylableWidgets[28] == "QSplitter";
      DiffersAt("QLabel", "QSplitter", 1);
    } else if i == 29 {
      assert StylableWidgets[29] == "QStatusBar";
      DiffersAt("QLabel", "QStatusBar", 1);
    } else if i == 30 {
      assert StylableWidgets[30] == "QTabBar";
      DiffersAt("QLabel", "QTabBar", 1);
    } else if i == 31 {
      assert StylableWidgets[31] == "QTabWidget";
      DiffersAt("QLabel", "QTabWidget", 1);
    } else if i == 32 {
      assert StylableWidgets[32] == "QTableView";
      DiffersAt("QLabel", "QTableView", 1);
    } else if i == 33 {
      assert StylableWidgets[33] == "QTableWidget";
      DiffersAt("QLabel", "QTableWidget", 1);
    }
  }

  // One chunk of the names after `QLabel`: a few names per lemma keeps each proof obligation small.
  lemma LaterNamesNotPrefix2(i: nat)
    requires 34 <= i < 43
    ensures !StartsWith("QLabel", StylableWidgets[i])
  {
    if i == 34 {
      assert StylableWidgets[34] == "QTextEdit";
      DiffersAt("QLabel", "QTextEdit", 1);
    } else if i == 35 {
      assert StylableWidgets[35] == "QTimeEdit";
      DiffersAt("QLabel", "QTimeEdit", 1);
    } else if i == 36 {
      assert StylableWidgets[36] == "QToolBar";
      DiffersAt("QLabel", "QToolBar", 1);
    } else if i == 37 {
      assert StylableWidgets[37] == "QToolButton";
      DiffersAt("QLabel", "QToolButton", 1);
    } else if i == 38 {
      assert StylableWidgets[38] == "QToolBox";
      DiffersAt("QLabel", "QToolBox", 1);
    } else if i == 39 {
      assert StylableWidgets[39] == "QToolTip";
      DiffersAt("QLabel", "QToolTip", 1);
    } else if i == 40 {
      assert StylableWidgets[40] == "QTreeView";
      DiffersAt("QLabel", "QTreeView", 1);
    } else if i == 41 {
      assert StylableWidgets[41] == "QTreeWidget";
      DiffersAt("QLabel", "QTreeWidget", 1);
    } else if i == 42 {
      assert StylableWidgets[42] == "QWidget";
      DiffersAt("QLabel", "QWidget", 1);
    }
  }
}
