# Senere Netter playground — a Dafny model of its state machines

The Senere Netter webdev playground is a browser page built with Vite. Beneath its DOM
rendering sit a few small, sequential state machines and total functions. This project
models them as immutable datatypes and pure transition functions, and proves what the
TypeScript promises about them:

- **ExperimentRunner** (`experiment_runner.dfy`): a name→experiment map with at most one
  active experiment. `run` stops the active experiment before looking the new one up.
  Unknown names raise `Experiment "<name>" not found`. Cleanup callbacks are optional. A
  callback call is recorded as an effect, so "its `run` is invoked exactly once" is a
  statement about the effect log. Each call of a callback takes as input how it ends
  (`Wrappers.Outcome`): a throwing `cleanup` rejects `stop` and `run` with the
  experiment still active, and a throwing `run` callback leaves its experiment active.
- **ComponentRegistry** (`component_registry.dfy`): a name→factory map. `load` of an unknown
  name throws without invoking anything. `load` of a known name invokes the factory on
  every call, with no memoisation, and returns the module's `default` or the rejection;
  whether a call's promise rejects is an input to that call.
- **InsertionMap** (`insertion_map.dfy`): the JavaScript `Map` both of the above are built on.
  It holds entries plus first-insertion key order. `set` of an existing key replaces the
  value in place. Iteration follows first insertion and yields the latest value.
- **SectionRouter** (`section_router.dfy`): the navigating variant of `PlaygroundUI` that
  lives in `src/playground/playground.test.ts`. It covers the current section, the
  ten-way content switch with its welcome fallback, and the sidebar as a list of
  `(data-section, active)` items. It also tracks whether the tool listeners are bound.
- **Playground** (`playground.dfy`): config defaulting by object spread, `auto` theme
  resolution, the Ctrl+t shortcut, and the three default component registrations.
- **Theme** and **PlaygroundUi** (`theme.dfy`, `playground_ui.dfy`): the dark/light toggle
  rule. They also map the colour pickers and the border-radius slider to CSS custom
  properties on the document, with `lg = md + 4`.
- **Counter** (`counter.dfy`): an unbounded integer counter, its decimal display and its
  three-way colour, plus `preserveState`.
- **DynamicImportDemo** (`dynamic_import_demo.dfy`): the loaded-module set, the
  "comma-join or `none`" list text, and the disable/restore cycle of the module buttons
  around a load that completes or throws.
- **Decimal**, **Seqs** and **Wrappers** are support modules. Decimal covers
  `Number.toString` and `parseInt` on decimal integers, with round-trip lemmas. Seqs
  holds the first-match search and distinctness. Wrappers provides `Option`, `Result`
  and `Outcome`.

Facts about the code that shape the model:

- `load` has no cache.
- `navigateToSection` stores an unknown section key verbatim; only the displayed
  content falls back to the welcome page.
- A `loadModule` call for a name with no `[data-module]` button throws a `TypeError`
  before the `try`.

The ExperimentRunner ensures hold under its invariant `ExperimentRunner.Inv`, which has
three parts. The map is valid: its key order lists each key once. Every experiment is
stored under its own name. The active experiment is null or a registered name.

## Model

| member | source | states |
|---|---|---|
| InsertionMap.Set | src/playground/components/ComponentRegistry.ts:7 | `Map.set`: the key set gains the key, the key maps to the new value, and every other key keeps its value; an existing key keeps its position, a new key is appended |
| InsertionMap.SetAllEntries | src/playground/experiments/ExperimentRunner.ts:12-14 | after a sequence of `set`s a key is present iff some `set` mentioned it, and its value is the one from the last such `set` |
| InsertionMap.SetAllOrder | src/playground/components/ComponentRegistry.ts:20-22 | after a sequence of `set`s, keys iterate in order of their first `set`, each exactly once |
| InsertionMap.Get | src/playground/components/ComponentRegistry.ts:11 | `Map.get`: a value exactly when the key is present, and then the value stored under it; also used at `ExperimentRunner.ts:21,33` |
| InsertionMap.Keys | src/playground/components/ComponentRegistry.ts:21 | `Array.from(map.keys())`: exactly the map's key order, which `SetAllOrder` shows is first-`set` order; pairwise distinct, and a string is listed iff it is a key of the map |
| InsertionMap.Values | src/playground/experiments/ExperimentRunner.ts:42 | `Array.from(map.values())`: one value per key, each the value stored under the key at that position of the key order |
| ExperimentRunner.Empty | src/playground/experiments/ExperimentRunner.ts:9-10 | a new runner has no experiments and nothing active, and satisfies the invariant |
| ExperimentRunner.NotFoundMessage | src/playground/experiments/ExperimentRunner.ts:23 | the error text is `Experiment "` + name + `" not found`, checked slice by slice |
| ExperimentRunner.Register | src/playground/experiments/ExperimentRunner.ts:12-14 | stores the experiment under its name, replacing an earlier one in place, while a new name is appended to the key order; other names and the active experiment are untouched; the invariant is kept |
| ExperimentRunner.Teardown | src/playground/experiments/ExperimentRunner.ts:33-38 | calls the named experiment's cleanup exactly when it is registered and has one; a throwing cleanup rejects with its error and changes nothing, otherwise the active experiment is cleared |
| ExperimentRunner.Stop | src/playground/experiments/ExperimentRunner.ts:30-39 | with nothing active: no effects, no error, nothing changes; otherwise the teardown of the active experiment; without an error nothing is active afterwards, with one the runner is unchanged |
| ExperimentRunner.Start | src/playground/experiments/ExperimentRunner.ts:21-27 | an unknown name is an error that changes nothing; a known name becomes active and its `run` is called once, and a throwing `run` rejects with the experiment left active |
| ExperimentRunner.Run | src/playground/experiments/ExperimentRunner.ts:16-28 | the stop of the previous experiment comes first, even when the name is unknown; a throwing cleanup rejects `run` there, before any lookup; otherwise an unknown name fails with the not-found message and leaves nothing active, and a known name becomes active with exactly one `run` call appended, whose throw is `run`'s error |
| ExperimentRunner.ThrowingCleanupBlocksRun | src/playground/experiments/ExperimentRunner.ts:17-18 | while the active experiment's cleanup throws, `run` of any name rejects with that error, calls only the cleanup, and leaves the runner as it was |
| ExperimentRunner.GetExperiments | src/playground/experiments/ExperimentRunner.ts:41-43 | the stored experiment of each key, in key order, with pairwise distinct names |
| ExperimentRunner.ExecPreservesInv | src/playground/experiments/ExperimentRunner.ts:9-27 | `register`, and `run` and `stop` both as written (truthiness test) and corrected (null test), keep the invariant that the active experiment is null or registered |
| ExperimentRunner.ExecAll | src/playground/experiments/ExperimentRunner.ts:9-27 | any sequence of commands, as-written `run`/`stop` included, from a valid runner ends in a valid runner |
| ExperimentRunner.RegistrationsPersist | src/playground/experiments/ExperimentRunner.ts:9-14 | no command, as written or corrected, removes a registered experiment |
| ExperimentRunner.RegisterAllIsSetAll | src/playground/experiments/ExperimentRunner.ts:12-13 | a sequence of registrations is the `Map.set` sequence keyed by experiment names |
| ExperimentRunner.RegisteredNameListed | src/playground/experiments/ExperimentRunner.ts:12-13 | every registered name is a key of the map |
| ExperimentRunner.GetExperimentsHoldsLatest | src/playground/experiments/ExperimentRunner.ts:41-43 | each listed experiment is the last one registered under its name |
| ExperimentRunner.GetExperimentsCoversNames | src/playground/experiments/ExperimentRunner.ts:41-43 | every registered name is listed |
| ExperimentRunner.GetExperimentsInFirstOrder | src/playground/experiments/ExperimentRunner.ts:41-43 | listed experiments appear in order of their name's first registration |
| ExperimentRunner.StopAsWritten | src/playground/experiments/ExperimentRunner.ts:31 | `stop` with the truthiness test: a no-op when the active name is null or "", otherwise the corrected `Stop` |
| ExperimentRunner.RunAsWritten | src/playground/experiments/ExperimentRunner.ts:16-19 | `run` with the truthiness test: a falsy active name skips the stop and goes straight to lookup and start; a truthy one behaves as `Run` |
| ExperimentRunner.AsWrittenAgreesUnlessEmptyName | src/playground/experiments/ExperimentRunner.ts:17 | the as-written `run`/`stop` equal the corrected ones unless the active experiment is named "" |
| ExperimentRunner.EmptyNameIsNeverStopped | src/playground/experiments/ExperimentRunner.ts:31 | a concrete runner whose active experiment is "": the as-written `stop` skips its cleanup and the as-written `run` of another name never calls it; the corrected versions do |
| ComponentRegistry.Empty | src/playground/components/ComponentRegistry.ts:4 | a new registry has no components |
| ComponentRegistry.Message | src/playground/components/ComponentRegistry.ts:13 | the not-found text is `Component "` + name + `" not found`; a loader rejection passes through unchanged |
| ComponentRegistry.Register | src/playground/components/ComponentRegistry.ts:6-8 | maps the name to the factory, overwriting in place, while a new name is appended to the key order; other names untouched; registering invokes no factory |
| ComponentRegistry.RegisterPreservesValid | src/playground/components/ComponentRegistry.ts:6-8 | registration keeps the map's key order and entries in step |
| ComponentRegistry.LoadComponent | src/playground/components/ComponentRegistry.ts:10-18 | an unknown name fails with `NotFound` and invokes nothing; a known name invokes its factory exactly once and yields its `default`, or that call's rejection |
| ComponentRegistry.RegisteredComponents | src/playground/components/ComponentRegistry.ts:20-22 | the map's key order: each registered name exactly once |
| ComponentRegistry.RegisterAllIsSetAll | src/playground/components/ComponentRegistry.ts:6-8 | a sequence of registrations is the `Map.set` sequence of its names and factories |
| ComponentRegistry.RegisteredInFirstOrder | src/playground/components/ComponentRegistry.ts:20-22 | after any registrations, the listed names are exactly those registered, in order of first registration, each mapped to its last factory |
| ComponentRegistry.InvocationCount | src/playground/components/ComponentRegistry.ts:11-17 | a sequence of loads invokes one factory per known name and none per unknown name |
| ComponentRegistry.RepeatedLoadsInvokeEachTime | src/playground/components/ComponentRegistry.ts:16-17 | `n` loads of a registered name invoke its factory `n` times: there is no memoisation |
| Playground.WithDefaults | src/playground/playground.ts:19-25 | each supplied field overrides its default; each missing field is `auto` for the theme, `true` for each flag |
| Playground.WithDefaultsExtremes | src/playground/playground.ts:19-25 | an empty partial config gives the defaults, and a full one is kept unchanged |
| Playground.InitialTheme | src/playground/playground.ts:41-47 | `auto` resolves to dark iff the dark-scheme preference holds; light and dark are used as given |
| Playground.OnKeyDown | src/playground/playground.ts:56-64 | the default is prevented and the theme toggled iff Ctrl is held and the key is `t`; otherwise the theme is unchanged |
| Playground.ShortcutTwiceRestores | src/playground/playground.ts:66-70 | pressing Ctrl+t twice from light or dark returns to the starting theme |
| Playground.DefaultRegistry | src/playground/playground.ts:51-53 | the default registry is valid and lists exactly `button`, `card`, `modal` in that order |
| Playground.RegisterButton | src/playground/playground.ts:51 | registering `button` on the empty registry gives the one-entry prefix |
| Playground.RegisterCard | src/playground/playground.ts:52 | registering `card` next gives the two-entry prefix |
| Playground.RegisterModal | src/playground/playground.ts:53 | registering `modal` last gives the default registry |
| Playground.RegisterDefaultComponents | src/playground/playground.ts:49-54 | the three registrations on a fresh registry produce exactly the default registry |
| Playground.DefaultComponentsLoad | src/playground/playground.ts:51-53 | `button`, `card` and `modal` load their own modules, and any other name is not found |
| Playground.Create | src/playground/playground.ts:18-39 | the constructed playground has the defaulted config, the resolved theme, the default registry (button, card and modal, each with its own module, as `DefaultComponentsLoad` states) and an empty runner with nothing active |
| Playground.KeyDown | src/playground/playground.ts:56-64 | a key event changes only the document's theme, and exactly as `OnKeyDown` decides |
| Playground.ShortcutMatchesButton | src/playground/playground.ts:66-70 | the Ctrl+t shortcut changes the document exactly as a click on the header's theme button does |
| Theme.Toggle | src/playground/playground.ts:66-70 | `dark` becomes `light`; any other value, absent included, becomes `dark` |
| Theme.ToggleTwiceRestores | src/playground/ui/PlaygroundUI.ts:105-110 | two toggles from `light` or `dark` restore it |
| Theme.ToggleTwiceFromOther | src/playground/playground.test.ts:81-85 | two toggles from any other or absent theme give `light`, not the start |
| PlaygroundUi.ClickThemeToggle | src/playground/ui/PlaygroundUI.ts:105-110 | the theme button applies the toggle rule and leaves the style properties alone |
| PlaygroundUi.PxRoundTrip | src/playground/ui/PlaygroundUI.ts:129 | reading back the digits of a pixel length gives the value |
| PlaygroundUi.ApplyToolInput | src/playground/ui/PlaygroundUI.ts:117-131 | the background picker writes its value unchanged to `--color-background` and the text picker to `--color-text`; the slider value `v` writes `--border-radius-md` = `v`px and `--border-radius-lg` = `v+4`px; nothing else changes |
| PlaygroundUi.RadiusLgIsMdPlusFour | src/playground/ui/PlaygroundUI.ts:127-131 | after a slider input the large radius reads as the medium one plus four |
| SectionRouter.KeyOf | src/playground/playground.test.ts:150-170 | each content kind is selected by one of the ten section keys |
| SectionRouter.ContentFor | src/playground/playground.test.ts:149-173 | a recognised key selects the content whose key it is; any other key selects the welcome content |
| SectionRouter.ContentForKeyOf | src/playground/playground.test.ts:149-173 | the switch is a bijection between the ten keys and the ten contents |
| SectionRouter.SidebarCoversSections | src/playground/playground.test.ts:35-55 | the sidebar's `data-section` values are exactly the ten switch keys, each once |
| SectionRouter.FirstWithSection | src/playground/playground.test.ts:145 | the index `querySelector` finds: the first item with the section, or past the end |
| SectionRouter.UpdateActive | src/playground/playground.test.ts:138-147 | items keep their sections, and an item is active iff it is the first whose `data-section` matches the current section |
| SectionRouter.AtMostOneActive | src/playground/playground.test.ts:138-147 | at most one item is active, it carries the current section, and an unknown section leaves none active |
| SectionRouter.UpdateActiveDistinct | src/playground/playground.test.ts:138-147 | with distinct sections, an item is active iff its section is the current one |
| SectionRouter.New | src/playground/playground.test.ts:8-14 | the current section starts as `welcome`, with nothing drawn |
| SectionRouter.Render | src/playground/playground.test.ts:16-76 | draws the welcome content, binds the tool listeners, and rebuilds the sidebar with only the current section active |
| SectionRouter.Navigate | src/playground/playground.test.ts:125-136 | stores the key verbatim; when the content container exists, replaces the content by the switch's choice and re-binds the tool listeners; re-marks the active item |
| SectionRouter.ClickNav | src/playground/playground.test.ts:87-97 | a click on an item with an empty `data-section` does nothing; any other click navigates to its section |
| SectionRouter.ToolsWiredPreserved | src/playground/playground.test.ts:127-131 | tool listeners are bound exactly when the displayed content has tool inputs |
| SectionRouter.ToolInput | src/playground/playground.test.ts:103-123 | picker and slider input takes effect only when the listeners are bound, with the same mapping as `PlaygroundUI` |
| SectionRouter.NavigateToKnownSection | src/playground/playground.test.ts:125-132 | navigating to one of the ten keys shows its content and marks exactly its sidebar item |
| SectionRouter.NavigateToUnknownSection | src/playground/playground.test.ts:125-132 | navigating to any other key keeps the key, shows the welcome content and marks no item |
| Counter.New | src/playground/components/Counter.ts:2 | the count starts at 0 |
| Counter.Increment | src/playground/components/Counter.ts:39-43 | adds exactly one |
| Counter.Decrement | src/playground/components/Counter.ts:45-49 | subtracts exactly one, and may go negative |
| Counter.ResetCount | src/playground/components/Counter.ts:51-55 | sets the count to 0 whatever it was |
| Counter.IncrementDecrementInverse | src/playground/components/Counter.ts:39-49 | increment and decrement undo each other |
| Counter.ColorOf | src/playground/components/Counter.ts:63-69 | success iff count > 10, error iff count < 0, primary iff 0 ≤ count ≤ 10 |
| Counter.Render | src/playground/components/Counter.ts:57-71 | the display text is the count's canonical decimal text (a '-' for negative counts, no leading zero) and parses back to the count; its colour is the classification of the count |
| Counter.RenderInjective | src/playground/components/Counter.ts:60 | different counts display different texts |
| Decimal.NatToString | src/playground/ui/PlaygroundUI.ts:129-130 | the text of a natural number is digits only, with no leading zero unless the number is zero |
| Decimal.IntToString | src/playground/components/Counter.ts:60 | `Number.toString` of a whole number: a '-' exactly when it is negative, then digits with no leading zero unless the number is zero |
| Decimal.IntRoundTrip | src/playground/components/Counter.ts:60 | `parseInt` of the decimal text of an integer is that integer |
| Decimal.NatRoundTrip | src/playground/ui/PlaygroundUI.ts:129 | the digits of a natural number read back as that number |
| Counter.NetClicks | src/playground/components/Counter.ts:39-49 | without resets, the count moves by increments minus decrements |
| Counter.ResetForgets | src/playground/components/Counter.ts:51-55 | after a reset the count depends only on the later clicks |
| Counter.PreserveState | src/playground/components/Counter.ts:86-91 | the new instance has the old instance's count, so the pure view of its count is the old one's |
| DynamicImportDemo.OriginalLabel | src/playground/experiments/DynamicImportDemo.ts:80-85 | a label exists exactly for confetti, animations and utils |
| DynamicImportDemo.PanelFor | src/playground/experiments/DynamicImportDemo.ts:61-71 | confetti draws the confetti panel, animations the animations panel and utils the utils panel, each iff it is that module; never the failure panel or the placeholder |
| DynamicImportDemo.Join | src/playground/experiments/DynamicImportDemo.ts:160 | `join(', ')`: the text starts with the first name and ends with the last, and its length is the names' total length plus two per separator |
| DynamicImportDemo.JoinSnoc | src/playground/experiments/DynamicImportDemo.ts:160 | joining one more name appends `", "` and the name, or just the name to an empty list |
| DynamicImportDemo.JoinEmpty | src/playground/experiments/DynamicImportDemo.ts:160 | the join is empty iff there are no names or only the empty name |
| DynamicImportDemo.ModuleListText | src/playground/experiments/DynamicImportDemo.ts:158-161 | the list text is the `", "`-join of the names when that is non-empty, and `none` when it is empty; never empty |
| DynamicImportDemo.AddModule | src/playground/experiments/DynamicImportDemo.ts:73 | `Set.add`: a new name is appended, and a present name leaves the list unchanged |
| DynamicImportDemo.FindButton | src/playground/experiments/DynamicImportDemo.ts:54 | the first button whose `data-module` is the name, or past the end |
| DynamicImportDemo.Render | src/playground/experiments/DynamicImportDemo.ts:11-40 | nothing is loaded, the list reads `none`, and there is one enabled button per module with its original label |
| DynamicImportDemo.StartLoad | src/playground/experiments/DynamicImportDemo.ts:52-58 | a missing button throws; otherwise that button shows the loading text and is disabled, and nothing else changes |
| DynamicImportDemo.FailureMessage | src/playground/experiments/DynamicImportDemo.ts:77 | the failure text names the module and ends with the error |
| DynamicImportDemo.LoadModule | src/playground/experiments/DynamicImportDemo.ts:52-88 | a load that does not throw adds the name, updates the list and shows the module's panel; a throwing load shows the failure message and leaves the set and list unchanged; in both cases the button is re-enabled with its original label |
| DynamicImportDemo.RenderIsIdleAndConsistent | src/playground/experiments/DynamicImportDemo.ts:11-40 | the rendered demo has every button enabled and its list text matches its set |
| DynamicImportDemo.LoadKeepsIdleAndConsistent | src/playground/experiments/DynamicImportDemo.ts:57-87 | the button is disabled during the load, and every button is enabled again afterwards with the list text still matching the set |
| DynamicImportDemo.UnknownNameThrows | src/playground/experiments/DynamicImportDemo.ts:54-57 | on the rendered page, a name outside the three modules has no button, so the handler throws |
| DynamicImportDemo.LoadTwiceListsOnce | src/playground/experiments/DynamicImportDemo.ts:73 | loading the same module twice lists it once |

## Left out

- DOM rendering is modelled abstractly. The model omits `innerHTML` templates, element
  lookup and listener wiring, and the smooth scroll in `navigateToSection`. Content is
  one tag per section key, the sidebar is a list of `(data-section, active)` items, and
  the document is its `data-theme` attribute plus a map of style properties.
- Promises and `async`/`await` are left out. Each operation runs to completion. The
  interleaving of overlapping `run` or `loadModule` calls is not modelled, and neither is
  a listener firing while an earlier `await` is pending.
- Each `import()` is modelled as a value per call: a module, or a rejection given as an
  input. Module caching by the browser is not modelled.
- A callback that throws is modelled by the error it throws; whatever it did to the page
  before throwing is not.
- `window.matchMedia` is a boolean input to `Playground.InitialTheme`.
- `Math.random`, `setTimeout`, `Date` and `canvas-confetti` are not modelled. They are used
  by the confetti and utils panels and by the counter's animation (`Counter.ts:73-83`).
  Only which panel is drawn is modelled.
- The Button, Card and Modal constructors, `ViteExplorer`, `AnimationUtils`, `main.ts` and
  the build configuration are not part of this model; they build DOM or configure Vite.
- The color-picker section's inline `oninput` attributes in the content templates of
  `playground.test.ts` are markup and are not modelled.
- PlaygroundUi.ApplyToolInput: the slider value is a natural number rendered in canonical
  decimal, since a range input yields one. The `parseInt` of arbitrary text (`NaN`,
  leading zeros, signs) is not modelled.
- ExperimentRunner.GetExperiments: the source stores experiment objects by reference.
  The model stores them as values that are never mutated after `register`. A caller that
  renames a registered object, or assigns its `cleanup` later, changes what
  `getExperiments` returns and what `stop` calls. The model keeps the values captured at
  registration, so its distinct-name and name-equals-key clauses assume no such mutation.
- Playground.WithDefaults: a field passed explicitly as `undefined` overrides its default
  in the spread. The model treats it as absent, because `PartialConfig` fields are options.
- SectionRouter.UpdateActive: a section key containing `"` makes the attribute selector
  invalid, and `querySelector` then throws. The model returns the first matching item
  instead.
- DynamicImportDemo.OriginalLabel: `originalText` is an object literal, so names such as
  `toString`, `constructor` or `__proto__` read inherited members and the button text
  becomes their string form. The model gives those names no label, so the text is empty.
  The rendered page never reaches this: such names have no button, and the handler throws
  first (`UnknownNameThrows`).
- DynamicImportDemo.StartLoad: the selector `[data-module="${moduleName}"]` is built from the
  name as is. A name containing `"` makes it invalid, so `querySelector` throws; in a name
  containing `\` the backslash is read as a CSS escape, so a different value is matched.
  The model finds the first button whose `data-module` equals the name. The rendered page
  never reaches this: its three module names contain neither character.
- DynamicImportDemo.LoadModule: inherits the selector gap of `StartLoad`, so for a name
  containing `"` or `\` the model loads where the source throws or picks another button.
- DynamicImportDemo.Render: button labels omit the whitespace the template puts around
  them, so the restored label equals the rendered one.
- Counter.PreserveState: the new instance is made by `Object.create`, which skips the
  constructor, so it has no element and its `render` would throw. The model keeps only
  the count; the views it compares are the pure `Render` of each count.
- Counter.Render: JavaScript numbers are modelled as unbounded integers. Loss of precision
  beyond 2^53 is not modelled.

## Findings

| source | as written | input that shows it | evidently intended | confidence | as-written member | corrected member |
|---|---|---|---|---|---|---|
| src/playground/experiments/ExperimentRunner.ts:17 | `run` and `stop` test the active experiment's name for truthiness, so an active experiment named "" counts as none: its cleanup is never called, and `run` of another name leaves it running unstopped | register `{name: "", cleanup: c}` and `{name: "b"}`, then `run("")`, then `run("b")` or `stop()`: `c` is never called | test `activeExperiment !== null`, so that any active experiment is stopped before the next one starts | low, not executed | ExperimentRunner.EmptyNameIsNeverStopped | ExperimentRunner.Run |
