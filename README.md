# Style picker colour model

This project models the colour-editing core of the style picker: the `DarkSheetPicker`
window of `style_picker.py`.

The window keeps three pieces of state:
- a colour model, `stylesheet_dict`: an insertion-ordered dictionary from a selector key to an insertion-ordered dictionary from property name to colour string;
- the keys shown in its item list, the "keep list";
- the style-sheet text it generates, `stylesheet`.

Three operations work on that state:

- **`_css_to_dict`**: clears the model and fills it from a Qt style-sheet text.
  - It goes through the allow-list `stylable_widgets` in its own order.
  - It finds every non-overlapping match of `<name>[ :\w]*{[^{}]+}`, left to right.
  - In each matched body it collects the `[-\w]*: #\w+;` declarations.
  - It stores `name + suffix -> declarations`, but only when at least one declaration matched.
  - Finally it resets the keep list to the model's keys.
- **`_dict_to_css`**: writes `key{\n`, one `   prop: value;\n` line per property, and `}\n\n`. It does this for each model entry, in model order, whose key is in the keep list.
- **`_change_color`**: overwrites one property value with the colour picked in the dialog, then regenerates the style-sheet.

The model has six modules:

- `OrderedDict` (`ordered_dict.dfy`): Python `dict` semantics.
  - An assignment to an existing key keeps that key's position.
  - A later value replaces an earlier one.
- `QssScan` (`qss_scan.dfy`): the two `re.findall` scans, written as deterministic greedy scanners.
  - They are `FindRules` and `FindDecls`.
  - Soundness and completeness lemmas relate them to the regular-expression matches they stand for.
- `StyleModel` (`style_model.dfy`): `Extract`, `Serialize` and `SetColor` as functions of their inputs, and the properties `_css_to_dict` and `_dict_to_css` promise.
- `RoundTrip` (`round_trip.dfy`): re-extracting a generated style-sheet gives back the kept entries. This holds when the model meets three conditions:
  - each key is made of `[ :\w]` characters, starts with an allow-listed name, and has no allow-listed name starting anywhere else in it;
  - no entry is empty, since an empty entry is written as `key{\n}\n\n`, and `_css_to_dict` drops it;
  - every property has a `[-\w]*` name and a `#\w+` value.
- `RoundTripLimit` (`round_trip_limit.dfy`): a model for which the round trip fails.
- `StylePicker` (`style_picker.dfy`): the class `DarkSheetPicker`.
  - Its fields are `stylesheet`, `stylesheetDict` and `itemList`.
  - Its methods have the loops of the source.
  - Each method is proved against the function that specifies it.

## Model

| member | source | states |
|---|---|---|
| StyleModel.StylableWidgets | style_picker.py:15-22 | The constant allow-list: the 43 widget names in their source order. No contract of its own; WidgetNameIsWord states what the scans rely on. |
| StyleModel.WidgetNameIsWord | style_picker.py:15-22 | Every allow-listed widget name is a non-empty run of word characters. |
| OrderedDict.Put | style_picker.py:165 | `d[k] = v`: the value is replaced. A new key is appended at the end. An existing key keeps its position. |
| OrderedDict.PutAllLastWins | style_picker.py:164-165 | After a series of assignments, a key holds the value of its last assignment. A key never assigned keeps its old value. |
| OrderedDict.PutAllOrder | style_picker.py:164-168 | Keys already present keep their places. New keys follow them, each once, in order of their first assignment. |
| OrderedDict.PutAll | style_picker.py:164-168 | The assignments `d[k] = v` of a series of pairs, left to right. It ensures only that the result is a valid dictionary; PutAllLastWins, PutAllOrder and PutAllAppend state what it computes. |
| OrderedDict.PutAllAppend | style_picker.py:164-168 | Assigning one series of pairs and then another is the same as assigning their concatenation. |
| OrderedDict.RebuildFromEntries | style_picker.py:164-165 | Assigning a dictionary's entries, in its order, to an empty dictionary rebuilds it exactly. |
| QssScan.RuleAt | style_picker.py:158 | The rule pattern anchored at one position, as a greedy scan: its two groups and its length, or `None`. No ensures; RuleAtSound and RuleAtFindsMatch state both directions against the pattern. |
| QssScan.FindRules | style_picker.py:158-159 | `re.findall` of the rule pattern: it tries each position from left to right and resumes after each match. No ensures; see FindRulesSound and FindRulesAtMatch. |
| QssScan.FindRulesAtMatch | style_picker.py:158-159 | When the pattern matches at the start of the text, `findall` yields that rule and then the rules of the text after the match. |
| QssScan.RuleAtSound | style_picker.py:158 | A rule the scanner reports at a position is a match of `<name>[ :\w]*{[^{}]+}` there. The length is that of the match. |
| QssScan.RuleAtFindsMatch | style_picker.py:158 | If the rule pattern matches at a position, the scanner reports exactly those groups and that length. |
| QssScan.FindRulesSound | style_picker.py:158-159 | Every rule `findall` yields has a `[ :\w]*` suffix and a non-empty `{}`-free body. It occurs in the text as `name + suffix + "{" + body + "}"`. |
| QssScan.DeclAt | style_picker.py:161 | The declaration pattern anchored at one position: its property and value groups and its length, or `None`. No ensures; DeclAtSound and DeclAtFindsMatch state both directions. |
| QssScan.FindDecls | style_picker.py:161-163 | `re.findall` of the declaration pattern over a rule body. No ensures; see FindDeclsSound. |
| QssScan.DeclAtSound | style_picker.py:161 | A declaration the scanner reports is a match of `([\-\w]*): (#[\d\w]+);` at that position. |
| QssScan.DeclAtFindsMatch | style_picker.py:161 | If the declaration pattern matches at a position, the scanner reports exactly its two groups and its length. |
| QssScan.FindDeclsSound | style_picker.py:161-163 | Every declaration found has a `[-\w]*` name and a `#\w+` value. It occurs in the body as `prop: value;`. |
| StyleModel.ParseProperties | style_picker.py:161-165 | The property dictionary of one rule body: its declarations, assigned in order. It ensures only validity; see ParsePropertiesShape and RoundTrip.RuleBodyProperties. |
| StyleModel.RuleEntries | style_picker.py:160-168 | The assignments one allow-listed name makes: one per match whose body has a declaration, under `name + suffix`. No ensures; see KeysStartWithName and RuleEntriesShape. |
| StyleModel.Assignments | style_picker.py:157-168 | The assignments of every name of a list, name by name. No ensures; see AssignmentsAppend, SplitAssignments and AssignmentsKeyAbsent. |
| StyleModel.Extract | style_picker.py:156-168 | The model `_css_to_dict` builds: every assignment made on an empty dictionary. No ensures; see ExtractShape, ExtractLastWins, ExtractOrder, ExtractNoEmptyEntry and RoundTrip.RoundTrip. |
| StyleModel.AssignmentsAppend | style_picker.py:157-168 | Scanning for the names `a + b` makes the assignments for `a`, then those for `b`. |
| StyleModel.SplitAssignments | style_picker.py:157-168 | The assignments of `before + [name] + after` are those of `before`, then those of `name`, then those of `after`. |
| StyleModel.ParsePropertiesShape | style_picker.py:161-165 | The property dictionary of a rule body holds only `[-\w]*` names with `#\w+` values. |
| StyleModel.ExtractShape | style_picker.py:156-168 | Each stored key is an allow-listed name followed by `[ :\w]` characters and then, in the text, by `{`. Each entry has a non-empty map of `[-\w]*` names to `#\w+` values. |
| StyleModel.ExtractNoEmptyEntry | style_picker.py:167-168 | No entry of an extracted model has an empty property dictionary. |
| StyleModel.ExtractLastWins | style_picker.py:160-168 | A key is stored exactly when some match produces it. It holds the properties of the last such match. |
| StyleModel.ExtractOrder | style_picker.py:156-168 | The model's keys are exactly the produced keys, each once. They are ordered by first production: allow-list position first, then position in the text. |
| StyleModel.ExtractWithoutNames | style_picker.py:156-168 | A text in which no allow-listed name occurs gives the empty model. |
| StyleModel.ExtractEmptyText | style_picker.py:156-168 | The empty text gives the empty model. |
| StyleModel.DeclLine | style_picker.py:180 | The line `   prop: value;\n`. No ensures; the text of its body is the format of the source. |
| StyleModel.DeclLines | style_picker.py:179-180 | The lines of a list of properties, in that order. No ensures; see RoundTrip.RuleBodyProperties. |
| StyleModel.RuleText | style_picker.py:177-182 | One block: `key{\n`, the lines of the properties in their order, `}\n\n`. No ensures; see RoundTrip.RuleTextScan. |
| StyleModel.SerializeKeys | style_picker.py:176-182 | The blocks of the keys of a list that the keep list holds, in the order of the list. No ensures; see SerializeKeysNothingKept and SerializeKeysMembership. |
| StyleModel.Serialize | style_picker.py:173-182 | The text `_dict_to_css` writes: the kept blocks in model order. No ensures; see SerializeNothingKept, SerializeKeepMembershipOnly, RoundTrip.RoundTrip and DarkSheetPicker.DictToCss. |
| StyleModel.SerializeNothingKept | style_picker.py:174-182 | When the keep list holds no key of the model, including when it is empty, the output is `""`. |
| StyleModel.SerializeKeepMembershipOnly | style_picker.py:176 | Only membership in the keep list matters. Its order, its duplicates and its keys absent from the model do not change the output. |
| StyleModel.SetColor | style_picker.py:107 | A missing item raises `KeyError`. Otherwise only `[item][prop]` changes. The model's key order is unchanged. The item's property order is unchanged unless the property is new, in which case it is appended. |
| StyleModel.SetColorKeepsEntriesNonEmpty | style_picker.py:107 | A colour change never creates an empty entry. |
| StyleModel.ColorNameIsColorValue | style_picker.py:106 | A colour as `QColor.name()` writes it (`#` and six hex digits) is a `#\w+` value. |
| RoundTrip.RuleBodyProperties | style_picker.py:179-180 | Scanning the declaration lines written for a colour-property dictionary rebuilds that dictionary, order included. |
| RoundTrip.RuleTextScan | style_picker.py:177-182 | This assumes the key is made of `[ :\w]` characters and the name does not start anywhere inside the key. Under that assumption, scanning one generated block for a name yields one rule, with the key's suffix and the written body, when the key starts with that name. Otherwise it yields nothing. |
| RoundTrip.RoundTrip | style_picker.py:151-182 | Under the round-trip condition, extracting the output for a keep list gives exactly the kept entries of the model. |
| RoundTrip.RoundTripAllKept | style_picker.py:151-182 | Under that condition, with every key kept, extraction gives back the model key for key. |
| RoundTrip.SetColorKeepsRoundTrippable | style_picker.py:105-107 | Setting an existing property to a `QColor.name()` colour keeps the round-trip condition. |
| RoundTrip.SetColorRoundTrip | style_picker.py:105-107 | After such a change, re-extracting the regenerated text shows the new colour, with the properties in their old order. |
| RoundTripLimit.RoundTripNeedsCondition | style_picker.py:158-168 | Take the model with `QLabel: #000` and `QWidget QLabel: #fff`. It breaks the condition. Writing it out and extracting it again gives `QLabel` the colour `#fff`. |
| StyleModel.KeysStartWithName | style_picker.py:168 | Every key stored for a name starts with that name. |
| StyleModel.AssignmentsKeyAbsent | style_picker.py:157-168 | A key that no name of a list starts is never stored while scanning for that list. |
| OrderedDict.LastValueAppend | style_picker.py:164-168 | The last value of a key over two runs of assignments comes from the second run when it assigns the key, and from the first run otherwise. |
| StylePicker.DarkSheetPicker.constructor | style_picker.py:46-58 | A new window starts with an empty text, an empty model and an empty item list. |
| StylePicker.DarkSheetPicker.CssToDict | style_picker.py:151-171 | The new model is `Extract(text)`, valid and with no empty entry. The keep list is its keys in model order. |
| StylePicker.DarkSheetPicker.ScanNames | style_picker.py:156-170 | The loop over the allow-list leaves the model equal to the assignments of every name in turn, made on an emptied model. |
| StylePicker.DarkSheetPicker.StoreMatches | style_picker.py:160-168 | The loop over the matches of one name stores each match that has at least one declaration under `name + suffix`. |
| StylePicker.DarkSheetPicker.ParseAttributes | style_picker.py:161-165 | The declaration loop builds the body's property dictionary: `[-\w]*` names with `#\w+` values. |
| StylePicker.DarkSheetPicker.DictToCss | style_picker.py:173-182 | The text built is `Serialize(model, keep list)`. |
| StylePicker.DarkSheetPicker.WriteItem | style_picker.py:176-182 | One pass of the outer loop appends the item's block exactly when the keep list holds it. |
| StylePicker.DarkSheetPicker.WriteRule | style_picker.py:177-182 | The text grows by `key{\n`, one `   prop: value;\n` per property in order, and `}\n\n`. |
| StylePicker.DarkSheetPicker.SetStylesheet | style_picker.py:184-185 | The text is regenerated from the model and the keep list. |
| StylePicker.DarkSheetPicker.ChangeColor | style_picker.py:102-114 | A picked colour for a missing item raises `KeyError` and changes nothing. A picked colour otherwise applies `SetColor`. A cancel leaves the model unchanged. In both of those cases the text is regenerated. |

## Left out

- The Qt user interface is not modelled:
  - `QSSViewer`, `init_ui`, `init_menu` and `item_selected`;
  - the `color_labels` label and pixmap updates in `_change_color`;
  - `main.py`.

  They build widgets and hold no colour-model logic.
- `QColorDialog.getColor`, `QColor.isValid` and `QColor.name()` are calls into Qt. The dialog's answer is a parameter of `ChangeColor`: `None` for a cancel or an invalid colour, otherwise the colour string. The round-trip lemmas about a colour change require the `#rrggbb` form that `name()` yields.
- `load_from_file`, `load_qdarkstyle` and `save_stylesheet` are left out. They read and write files, or load a third-party theme.
  - Only the text they pass to `_css_to_dict`, or take from `stylesheet`, enters the model.
  - The newline removal that `load_qdarkstyle` applies to its input is not modelled.
- `app.setStyleSheet` in `set_stylesheet` is left out. It applies the text to the running application.
- `test_pyvista` is left out. It downloads sample data and renders it in 3D.
- `EditList` (`base_widgets`) is not part of this model.
  - The item list is a plain sequence of keys. `_css_to_dict` replaces it, and `_dict_to_css` reads it by membership.
  - The user's removals from that list are not modelled, beyond its being any sequence.
- The `\w` class is ASCII only here: letters, digits and `_`. Python's `\w` also matches other Unicode letters and digits.
- RoundTrip.RoundTrip: the round trip compares the tables, not the order of the top-level keys.
  - Re-extraction orders keys by allow-list position.
  - `_dict_to_css` writes them in model order.
  - The two orders differ in general.
  - The order of properties within an entry is preserved.
- RoundTripLimit.RoundTripNeedsCondition: the lemma starts from the model that `_css_to_dict` builds for `QWidget QLabel{color: #fff;} QLabel{color: #000;}`. It does not prove that this text extracts to that model.

## Behaviour worth noting


- `_change_color` with a picked colour for an item that is not in the model raises `KeyError`. It does not skip the update. A property missing from the item is appended rather than refused (style_picker.py:107).
- `set_stylesheet` runs after a cancelled pick too (style_picker.py:114). The text is regenerated from the unchanged model.
- The order of the keys in an extracted model follows the allow-list order. For example, `QLabel` entries come before `QPushButton` entries whatever their order in the text.
