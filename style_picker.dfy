/** The colour-model state of the picker window and the methods that change it. */
module StylePicker {
  import opened OrderedDict
  import opened QssScan
  import opened StyleModel

  /** `DarkSheetPicker`: the generated style-sheet, the colour model, and the keys
      shown in the item list (the keep list). */
  class DarkSheetPicker {
    var stylesheet: string
    var stylesheetDict: StyleDict
    var itemList: seq<string>

    /** The model is a well-formed ordered dictionary with no empty entry. */
    ghost predicate Valid()
      reads this
    {
      ValidModel(stylesheetDict) && NoEmptyEntry(stylesheetDict)
    }

    constructor ()
      ensures Valid()
      ensures stylesheet == "" && stylesheetDict == Empty() && itemList == []
    {
      stylesheet := "";
      stylesheetDict := Empty();
      itemList := [];
    }

    /** `_css_to_dict`: rebuild the model from a style-sheet text and show its keys. */
    method CssToDict(text: string)
      modifies this`stylesheetDict, this`itemList
      ensures Valid()
      ensures stylesheetDict == Extract(text)
      ensures itemList == stylesheetDict.order
    {
      ghost var extracted := Extract(text);
      ExtractNoEmptyEntry(text);
      ScanNames(text, StylableWidgets);
      assert stylesheetDict == extracted;
    }

    /** The body of `_css_to_dict` for an allow-list `names`: clear the model, store
        the rule entries of each name in turn, then show the model's keys. */
    method ScanNames(text: string, names: seq<string>)
      modifies this`stylesheetDict, this`itemList
      ensures stylesheetDict == PutAll(Empty(), Assignments(text, names))
      ensures itemList == stylesheetDict.order
    {
      ghost var target := PutAll(Empty(), Assignments(text, names));
      stylesheetDict := Empty();
      assert names[0..] == names;
      var w := 0;
      while w < |names|
        invariant 0 <= w <= |names|
        invariant stylesheetDict.Valid()
        invariant PutAll(stylesheetDict, Assignments(text, names[w..])) == target
      {
        var qitem := names[w];
        var allMatches := FindRules(text, qitem);
        AssignName(stylesheetDict, text, names, w);
        StoreMatches(qitem, allMatches);
        w := w + 1;
      }
      assert names[w..] == [];
      itemList := stylesheetDict.order;
    }

    /** The loop of `_css_to_dict` over the matches of one allow-listed name: each
        match with at least one declaration is stored under `qitem + suffix`. */
    method StoreMatches(qitem: string, allMatches: seq<Rule>)
      requires stylesheetDict.Valid()
      modifies this`stylesheetDict
      ensures stylesheetDict.Valid()
      ensures stylesheetDict == PutAll(old(stylesheetDict), RuleEntries(qitem, allMatches))
    {
      ghost var target := PutAll(stylesheetDict, RuleEntries(qitem, allMatches));
      assert allMatches[0..] == allMatches;
      var m := 0;
      while m < |allMatches|
        invariant 0 <= m <= |allMatches|
        invariant stylesheetDict.Valid()
        invariant PutAll(stylesheetDict, RuleEntries(qitem, allMatches[m..])) == target
      {
        var suffix := allMatches[m].suffix;
        var attributeDict := ParseAttributes(allMatches[m].body);
        AssignRule(stylesheetDict, qitem, allMatches, m);
        if |attributeDict.order| != 0 {
          stylesheetDict := Put(stylesheetDict, qitem + suffix, attributeDict);
        }
        m := m + 1;
      }
      assert allMatches[m..] == [];
    }

    /** The loop of `_css_to_dict` over the declarations of one rule body. */
    static method ParseAttributes(attributes: string) returns (attributeDict: Properties)
      ensures attributeDict == ParseProperties(attributes)
      ensures attributeDict.Valid() && IsColorProperties(attributeDict)
    {
      var attrMatches := FindDecls(attributes);
      attributeDict := Empty();
      assert attrMatches[0..] == attrMatches;
      var a := 0;
      while a < |attrMatches|
        invariant 0 <= a <= |attrMatches|
        invariant attributeDict.Valid()
        invariant PutAll(attributeDict, attrMatches[a..]) == ParseProperties(attributes)
      {
        assert attrMatches[a..][1..] == attrMatches[a + 1..];
        attributeDict := Put(attributeDict, attrMatches[a].0, attrMatches[a].1);
        a := a + 1;
      }
      assert attrMatches[a..] == [];
      ParsePropertiesShape(attributes);
    }

    /** One allow-listed name of `_css_to_dict`: its rule entries come first. */
    static lemma AssignName(sd: StyleDict, text: string, names: seq<string>, w: nat)
      requires sd.Valid() && w < |names|
      ensures PutAll(sd, Assignments(text, names[w..])) ==
                PutAll(PutAll(sd, RuleEntries(names[w], FindRules(text, names[w]))), Assignments(text, names[w + 1..]))
    {
      assert names[w..][0] == names[w] && names[w..][1..] == names[w + 1..];
      PutAllAppend(sd, RuleEntries(names[w], FindRules(text, names[w])), Assignments(text, names[w + 1..]));
    }

    /** One rule match of `_css_to_dict`: storing its properties, when there are any,
        is the first assignment `RuleEntries` makes for the remaining matches. */
    static lemma AssignRule(sd: StyleDict, qitem: string, ms: seq<Rule>, m: nat)
      requires sd.Valid() && m < |ms|
      ensures var props := ParseProperties(ms[m].body);
              var sd' := if |props.order| != 0 then Put(sd, qitem + ms[m].suffix, props) else sd;
              PutAll(sd, RuleEntries(qitem, ms[m..])) == PutAll(sd', RuleEntries(qitem, ms[m + 1..]))
    {
      var props := ParseProperties(ms[m].body);
      var head := if |props.order| != 0 then [(qitem + ms[m].suffix, props)] else [];
      assert ms[m..][0] == ms[m] && ms[m..][1..] == ms[m + 1..];
      assert RuleEntries(qitem, ms[m..]) == head + RuleEntries(qitem, ms[m + 1..]);
      PutAllAppend(sd, head, RuleEntries(qitem, ms[m + 1..]));
      if head != [] {
        assert head[1..] == [];
      }
    }

    /** One step of the loop of `_dict_to_css`: the block of `items[i]` when the keep
        list holds it, then the blocks of the remaining items. */
    static lemma KeyStep(acc: string, d: StyleDict, keep: seq<string>, items: seq<string>, i: nat, target: string)
      requires ValidModel(d) && i < |items| && forall k :: k in items ==> k in d.table
      requires acc + SerializeKeys(d, keep, items[i..]) == target
      ensures items[i] in keep ==>
                (acc + RuleText(items[i], d.table[items[i]])) + SerializeKeys(d, keep, items[i + 1..]) == target
      ensures items[i] !in keep ==> acc + SerializeKeys(d, keep, items[i + 1..]) == target
    {
      assert items[i..][0] == items[i] && items[i..][1..] == items[i + 1..];
    }

    /** One step of the inner loop of `_dict_to_css`: the line of `keys[j]`, then the
        lines of the remaining keys and the closing brace. */
    static lemma LineStep(acc: string, props: Properties, keys: seq<string>, j: nat, target: string)
      requires j < |keys| && forall k :: k in keys ==> k in props.table
      requires acc + (DeclLines(props, keys[j..]) + "}\n\n") == target
      ensures (acc + DeclLine(keys[j], props.table[keys[j]])) + (DeclLines(props, keys[j + 1..]) + "}\n\n") == target
    {
      assert keys[j..][0] == keys[j] && keys[j..][1..] == keys[j + 1..];
    }

    /** The opening of a block, its lines and its closing brace make up the block. */
    static lemma OpenBlock(acc: string, key: string, props: Properties)
      requires props.Valid()
      ensures (acc + key + "{\n") + (DeclLines(props, props.order[0..]) + "}\n\n") == acc + RuleText(key, props)
    {
      assert props.order[0..] == props.order;
    }

    /** `_dict_to_css`: write the kept entries of the model, in model order. */
    method DictToCss()
      requires Valid()
      modifies this`stylesheet
      ensures stylesheet == Serialize(stylesheetDict, itemList)
    {
      var model, keep := stylesheetDict, itemList;
      ghost var target := Serialize(model, keep);
      stylesheet := "";
      var items := model.order;
      SerializeFrom(model, keep);
      var i := 0;
      while i < |items|
        invariant 0 <= i <= |items|
        invariant stylesheet + SerializeKeys(model, keep, items[i..]) == target
      {
        WriteItem(model, keep, items, i, target);
        i := i + 1;
      }
      SerializeDone(stylesheet, model, keep, items, target);
    }

    /** Before the loop of `_dict_to_css`: nothing written, every item to go. */
    static lemma SerializeFrom(model: StyleDict, keep: seq<string>)
      requires ValidModel(model)
      ensures forall k :: k in model.order ==> k in model.table
      ensures "" + SerializeKeys(model, keep, model.order[0..]) == Serialize(model, keep)
    {
      assert model.order[0..] == model.order;
    }

    /** After the loop of `_dict_to_css`: every item written. */
    static lemma SerializeDone(acc: string, model: StyleDict, keep: seq<string>, items: seq<string>, target: string)
      requires ValidModel(model) && forall k :: k in items ==> k in model.table
      requires acc + SerializeKeys(model, keep, items[|items|..]) == target
      ensures acc == target
    {
      assert items[|items|..] == [];
    }

    /** The body of the loop of `_dict_to_css`: the block of `items[i]`, written when
        the keep list holds it. */
    method WriteItem(model: StyleDict, keep: seq<string>, items: seq<string>, i: nat, ghost target: string)
      requires ValidModel(model) && i < |items| && forall k :: k in items ==> k in model.table
      requires stylesheet + SerializeKeys(model, keep, items[i..]) == target
      modifies this`stylesheet
      ensures stylesheet + SerializeKeys(model, keep, items[i + 1..]) == target
    {
      var item := items[i];
      KeyStep(stylesheet, model, keep, items, i, target);
      if item in keep {
        WriteRule(item, model.table[item]);
      }
    }

    /** The body of the loop of `_dict_to_css` for one kept item. */
    method WriteRule(item: string, props: Properties)
      requires props.Valid()
      modifies this`stylesheet
      ensures stylesheet == old(stylesheet) + RuleText(item, props)
    {
      ghost var target := old(stylesheet) + RuleText(item, props);
      var keys := props.order;
      OpenBlock(stylesheet, item, props);
      stylesheet := stylesheet + item + "{\n";
      var j := 0;
      while j < |keys|
        invariant 0 <= j <= |keys|
        invariant stylesheet + (DeclLines(props, keys[j..]) + "}\n\n") == target
      {
        LineStep(stylesheet, props, keys, j, target);
        stylesheet := stylesheet + DeclLine(keys[j], props.table[keys[j]]);
        j := j + 1;
      }
      assert keys[j..] == [];
      stylesheet := stylesheet + "}\n\n";
    }

    /** `set_stylesheet` without the call that applies the text to the application. */
    method SetStylesheet()
      requires Valid()
      modifies this`stylesheet
      ensures stylesheet == Serialize(stylesheetDict, itemList)
    {
      DictToCss();
    }

    /** `_change_color` after the dialog: `picked` is the dialog's answer, `None` for a
        cancel. A picked colour overwrites `stylesheetDict[itemName][key]`; a missing
        item raises `KeyError` and nothing else happens; otherwise the style-sheet is
        regenerated, after a cancel too. */
    method ChangeColor(itemName: string, key: string, picked: Option<string>) returns (keyError: bool)
      requires Valid()
      modifies this
      ensures Valid()
      ensures keyError <==> picked.Some? && itemName !in old(stylesheetDict.table)
      ensures keyError ==> unchanged(this)
      ensures !keyError ==>
        && stylesheetDict ==
             (if picked.None? then old(stylesheetDict)
              else SetColor(old(stylesheetDict), itemName, key, picked.value).model)
        && itemList == old(itemList)
        && stylesheet == Serialize(stylesheetDict, itemList)
    {
      if picked.Some? {
        var outcome := SetColor(stylesheetDict, itemName, key, picked.value);
        if outcome.KeyError? {
          return true;
        }
        SetColorKeepsEntriesNonEmpty(stylesheetDict, itemName, key, picked.value);
        stylesheetDict := outcome.model;
      }
      SetStylesheet();
      return false;
    }
  }
}
