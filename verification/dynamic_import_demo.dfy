/** The dynamic-import demo: three buttons each load a module on demand. A module's name
    joins the set of loaded modules only when its load completes without throwing; the
    button is disabled while loading and always restored afterwards; the footer lists the
    loaded modules, or "none". */
module DynamicImportDemo {
  import opened Wrappers
  import Seqs

  /** What the `#dynamic-content` area shows. */
  datatype Panel =
    | Placeholder
    | ConfettiPanel
    | AnimationsPanel
    | UtilsPanel
    | FailurePanel(message: string)

  /** A `[data-module]` button: the module it loads (`data-module`), its text, and whether it is disabled. */
  datatype ModuleButton = ModuleButton(moduleName: string, text: string, disabled: bool)

  /** The demo's state: loaded module names in insertion order (a JavaScript `Set`), the
      content area, the `#module-list` text and the buttons in document order. */
  datatype Demo = Demo(loaded: seq<string>, content: Panel, moduleList: string, buttons: seq<ModuleButton>)

  const Modules: seq<string> := ["confetti", "animations", "utils"]

  const LoadingText: string := "⏳ Loading..."

  /** The label each button is restored to; names outside the table have none
      (`undefined`, which clears the button's text). */
  function OriginalLabel(name: string): (l: Option<string>)
    ensures l.Some? <==> name in Modules
  {
    match name
    case "confetti" => Some("🎉 Load Confetti")
    case "animations" => Some("✨ Load Animations")
    case "utils" => Some("🛠️ Load Utils")
    case _ => None
  }

  /** The panel a module's loader draws. */
  function PanelFor(name: string): (p: Panel)
    requires name in Modules
    ensures !p.FailurePanel? && p != Placeholder
    ensures p == ConfettiPanel <==> name == "confetti"
    ensures p == AnimationsPanel <==> name == "animations"
    ensures p == UtilsPanel <==> name == "utils"
  {
    if name == "confetti" then ConfettiPanel
    else if name == "animations" then AnimationsPanel
    else UtilsPanel
  }

  /** `Array.from(set).join(', ')`: the names in order, with ", " between neighbours. */
  function Join(names: seq<string>): (j: string)
    ensures |names| > 0 ==> names[0] <= j
    ensures |names| > 0 ==> |j| >= |names[|names| - 1]| && j[|j| - |names[|names| - 1]|..] == names[|names| - 1]
    ensures |j| == TotalLength(names) + 2 * (if |names| == 0 then 0 else |names| - 1)
  {
    if |names| == 0 then ""
    else if |names| == 1 then names[0]
    else names[0] + ", " + Join(names[1..])
  }

  /** The summed lengths of the names. */
  function TotalLength(names: seq<string>): nat {
    if |names| == 0 then 0 else |names[0]| + TotalLength(names[1..])
  }

  /** Joining one more name appends it after a separator. */
  lemma {:induction false} JoinSnoc(names: seq<string>, name: string)
    ensures |names| == 0 ==> Join(names + [name]) == name
    ensures |names| > 0 ==> Join(names + [name]) == Join(names) + ", " + name
    decreases |names|
  {
    if |names| > 1 {
      assert (names + [name])[1..] == names[1..] + [name];
      JoinSnoc(names[1..], name);
    } else if |names| == 1 {
      assert (names + [name])[1..] == [name];
    }
  }

  /** The joined text is empty exactly when there are no names, or only the empty name. */
  lemma JoinEmpty(names: seq<string>)
    ensures Join(names) == "" <==> |names| == 0 || names == [""]
  {
    if |names| > 1 {
      assert |Join(names)| >= 2;
    }
  }

  /** `updateModuleList`: the joined names, or "none" when that text is empty. */
  function ModuleListText(names: seq<string>): (text: string)
    ensures Join(names) != "" ==> text == Join(names)
    ensures Join(names) == "" ==> text == "none"
    ensures text == "none" <==> Join(names) == "" || Join(names) == "none"
    ensures |text| > 0
  {
    var joined := Join(names);
    if joined == "" then "none" else joined
  }

  /** `loadedModules.add(name)`: a name already present is not listed again. */
  function AddModule(loaded: seq<string>, name: string): (r: seq<string>)
    ensures name in r
    ensures forall x :: x in r <==> x in loaded || x == name
    ensures name in loaded ==> r == loaded
    ensures name !in loaded ==> r == loaded + [name]
  {
    if name in loaded then loaded else loaded + [name]
  }

  /** The buttons' `data-module` values, in document order. */
  function ModuleNames(buttons: seq<ModuleButton>): (ns: seq<string>)
    ensures |ns| == |buttons|
    ensures forall i :: 0 <= i < |buttons| ==> ns[i] == buttons[i].moduleName
  {
    seq(|buttons|, i requires 0 <= i < |buttons| => buttons[i].moduleName)
  }

  /** The index of the first button for `name`, the one `querySelector` finds; `|buttons|`
      when there is none. */
  function FindButton(buttons: seq<ModuleButton>, name: string): (i: nat)
    ensures i <= |buttons|
    ensures i < |buttons| ==> buttons[i].moduleName == name
    ensures forall j :: 0 <= j < i ==> buttons[j].moduleName != name
  {
    Seqs.IndexOf(ModuleNames(buttons), name)
  }

  /** Buttons that load the same modules in the same order are found alike. */
  lemma FindButtonSameModules(a: seq<ModuleButton>, b: seq<ModuleButton>, name: string)
    requires |a| == |b| && forall i :: 0 <= i < |a| ==> a[i].moduleName == b[i].moduleName
    ensures FindButton(a, name) == FindButton(b, name)
  {
    assert ModuleNames(a) == ModuleNames(b);
  }

  /** The freshly rendered demo. The markup's labels are modelled without their
      surrounding whitespace. */
  function Render(): (d: Demo)
    ensures d.loaded == [] && d.content == Placeholder && d.moduleList == "none"
    ensures |d.buttons| == |Modules|
    ensures forall i :: 0 <= i < |Modules| ==>
              d.buttons[i] == ModuleButton(Modules[i], OriginalLabel(Modules[i]).value, false)
  {
    Demo([], Placeholder, "none",
         [ModuleButton("confetti", "🎉 Load Confetti", false),
          ModuleButton("animations", "✨ Load Animations", false),
          ModuleButton("utils", "🛠️ Load Utils", false)])
  }

  /** The loading state set before the `try`: the button for `name` shows the loading text
      and is disabled. Without such a button, `button.textContent` throws a TypeError. */
  function StartLoad(d: Demo, name: string): (r: Result<Demo, string>)
    ensures FindButton(d.buttons, name) == |d.buttons| ==> r.Err?
    ensures FindButton(d.buttons, name) < |d.buttons| ==>
              var i := FindButton(d.buttons, name);
              r == Ok(d.(buttons := d.buttons[i := ModuleButton(name, LoadingText, true)]))
  {
    var i := FindButton(d.buttons, name);
    if i == |d.buttons| then Err("TypeError: button is null")
    else Ok(d.(buttons := d.buttons[i := ModuleButton(name, LoadingText, true)]))
  }

  /** Whether the `switch` runs a loader for `name` and that loader throws. */
  predicate Fails(name: string, outcome: Outcome) {
    name in Modules && outcome.Throws?
  }

  function FailureMessage(name: string, error: string): (msg: string)
    ensures |msg| >= |error| && msg[|msg| - |error|..] == error
    ensures msg[..|msg| - |error|] == "❌ Failed to load " + name + ": "
  {
    "❌ Failed to load " + name + ": " + error
  }

  /** The `try`/`catch`/`finally` after the loading state: on success the name joins the
      set and the list is redrawn; on failure an error naming the module is shown and the
      set is untouched; in both cases the button is re-enabled with its original label.
      `outcome` is ignored for names the `switch` has no case for: nothing runs, so
      nothing throws. */
  function Settle(d: Demo, name: string, outcome: Outcome): (r: Demo)
    requires FindButton(d.buttons, name) < |d.buttons|
  {
    var i := FindButton(d.buttons, name);
    var restored := d.buttons[i := ModuleButton(name, OriginalLabel(name).GetOr(""), false)];
    if Fails(name, outcome) then
      Demo(d.loaded, FailurePanel(FailureMessage(name, outcome.error)), d.moduleList, restored)
    else
      var loaded := AddModule(d.loaded, name);
      Demo(loaded, if name in Modules then PanelFor(name) else d.content, ModuleListText(loaded), restored)
  }

  /** `loadModule`: the whole click handler. */
  function LoadModule(d: Demo, name: string, outcome: Outcome): (r: Result<Demo, string>)
    ensures FindButton(d.buttons, name) == |d.buttons| ==> r.Err?
    ensures FindButton(d.buttons, name) < |d.buttons| ==> r.Ok?
    ensures r.Ok? ==>
              var i := FindButton(d.buttons, name);
              var d' := r.value;
              && |d'.buttons| == |d.buttons|
              && d'.buttons[i] == ModuleButton(name, OriginalLabel(name).GetOr(""), false)
              && (forall j :: 0 <= j < |d.buttons| && j != i ==> d'.buttons[j] == d.buttons[j])
              && (Fails(name, outcome) ==>
                    d'.loaded == d.loaded && d'.moduleList == d.moduleList &&
                    d'.content == FailurePanel(FailureMessage(name, outcome.error)))
              && (!Fails(name, outcome) ==>
                    d'.loaded == AddModule(d.loaded, name) && d'.moduleList == ModuleListText(d'.loaded))
              && (!Fails(name, outcome) && name in Modules ==> d'.content == PanelFor(name))
              && (name !in Modules ==> d'.content == d.content)
  {
    match StartLoad(d, name)
    case Err(e) => Err(e)
    case Ok(busy) =>
      FindButtonSameModules(d.buttons, busy.buttons, name);
      Ok(Settle(busy, name, outcome))
  }

  /** No button is mid-load, and each shows its original label. */
  predicate Idle(d: Demo) {
    forall i :: 0 <= i < |d.buttons| ==>
      !d.buttons[i].disabled && d.buttons[i].text == OriginalLabel(d.buttons[i].moduleName).GetOr("")
  }

  /** The loaded names are a set, and the footer text always lists them. */
  predicate Consistent(d: Demo) {
    Seqs.Distinct(d.loaded) && d.moduleList == ModuleListText(d.loaded)
  }

  lemma RenderIsIdleAndConsistent()
    ensures Idle(Render()) && Consistent(Render())
  {
  }

  /** While a load is pending its button is disabled; once it settles, whether the
      loader completed or threw, an idle demo is idle again and stays consistent. */
  lemma LoadKeepsIdleAndConsistent(d: Demo, name: string, outcome: Outcome)
    requires Idle(d) && Consistent(d)
    requires FindButton(d.buttons, name) < |d.buttons|
    ensures StartLoad(d, name).value.buttons[FindButton(d.buttons, name)].disabled
    ensures Idle(LoadModule(d, name, outcome).value)
    ensures Consistent(LoadModule(d, name, outcome).value)
  {
    var r := LoadModule(d, name, outcome).value;
    if !Fails(name, outcome) && name !in d.loaded {
      assert r.loaded == d.loaded + [name];
    }
  }

  /** On the rendered demo, a name with no button throws before anything changes, so the
      `switch`'s fall-through (a name loaded without running any loader) is never reached
      from the page as drawn. */
  lemma UnknownNameThrows(name: string, outcome: Outcome)
    requires name !in Modules
    ensures LoadModule(Render(), name, outcome).Err?
  {
    assert FindButton(Render().buttons, name) == |Render().buttons|;
  }

  /** Loading a module twice lists it once. */
  lemma LoadTwiceListsOnce(d: Demo, name: string)
    requires Consistent(d)
    requires FindButton(d.buttons, name) < |d.buttons|
    ensures var d1 := LoadModule(d, name, Completes).value;
            var d2 := LoadModule(d1, name, Completes).value;
            name in d2.loaded && d2.loaded == d1.loaded
  {
    var d1 := LoadModule(d, name, Completes).value;
    FindButtonSameModules(d.buttons, d1.buttons, name);
  }
}
