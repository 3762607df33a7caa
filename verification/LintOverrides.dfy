/** Lint overrides, layered in order with the last statement of each rule winning, and the completion that
    makes the last matching group state every plugin rule. */
module LintOverrides {
  import opened Options

  /** A severity with its options; which one means off is all that matters here. */
  datatype Setting = Off | On(severity: string, options: nat)

  type Rule = string
  type File = string

  /** The files its globs match, and what it states of some rules. */
  datatype Override = Override(files: set<File>, rules: map<Rule, Setting>)

  /** Every rule of the plugin off, then what the override itself states. */
  function Total(plugin: set<Rule>, override: Override): Override {
    override.(rules := (map rule | rule in plugin :: Off) + override.rules)
  }

  function TotalOverrides(plugin: set<Rule>, overrides: seq<Override>): (total: seq<Override>)
    ensures |total| == |overrides| && forall i :: 0 <= i < |overrides| ==> total[i] == Total(plugin, overrides[i])
  {
    seq(|overrides|, i requires 0 <= i < |overrides| => Total(plugin, overrides[i]))
  }

  /** The settings of a file: the base, then each matching override on top. */
  function Layered(base: map<Rule, Setting>, overrides: seq<Override>, file: File): map<Rule, Setting> {
    if overrides == [] then base
    else
      var before := Layered(base, overrides[..|overrides| - 1], file);
      var last := overrides[|overrides| - 1];
      if file in last.files then before + last.rules else before
  }

  function Found(settings: map<Rule, Setting>, rule: Rule): Option<Setting> {
    if rule in settings then Some(settings[rule]) else None
  }

  /** The last override that matches the file. */
  function LastMatching(overrides: seq<Override>, file: File): Option<Override> {
    if overrides == [] then None
    else if file in overrides[|overrides| - 1].files then Some(overrides[|overrides| - 1])
    else LastMatching(overrides[..|overrides| - 1], file)
  }

  /** What one override states of a rule, off where it is silent. */
  function StatedAlone(override: Override, rule: Rule): Setting {
    if rule in override.rules then override.rules[rule] else Off
  }

  lemma TotalInit(plugin: set<Rule>, overrides: seq<Override>)
    requires overrides != []
    ensures TotalOverrides(plugin, overrides)[..|overrides| - 1] == TotalOverrides(plugin, overrides[..|overrides| - 1])
  {}

  /** Override `i` is the last one that matches the file and states the rule. */
  ghost predicate LastStating(overrides: seq<Override>, file: File, rule: Rule, i: int) {
    && 0 <= i < |overrides| && file in overrides[i].files && rule in overrides[i].rules
    && forall k :: i < k < |overrides| ==> !(file in overrides[k].files && rule in overrides[k].rules)
  }

  /** Layered plainly, the last matching override that states a rule decides it, or else the base. */
  lemma {:induction false} LayeredExactly(base: map<Rule, Setting>, overrides: seq<Override>, file: File, rule: Rule)
    ensures forall i :: LastStating(overrides, file, rule, i) ==>
              Found(Layered(base, overrides, file), rule) == Some(overrides[i].rules[rule])
    ensures (forall i :: !LastStating(overrides, file, rule, i)) ==>
              Found(Layered(base, overrides, file), rule) == Found(base, rule)
  {
    if overrides != [] {
      var n := |overrides| - 1;
      LayeredExactly(base, overrides[..n], file, rule);
      if file in overrides[n].files && rule in overrides[n].rules {
        assert LastStating(overrides, file, rule, n);
      } else {
        forall i ensures LastStating(overrides, file, rule, i) <==> LastStating(overrides[..n], file, rule, i) {}
      }
    }
  }

  /** After the completion the last matching override alone decides every plugin rule; without a matching
      one the base does. */
  lemma {:induction false} LastDecides(plugin: set<Rule>, base: map<Rule, Setting>, overrides: seq<Override>,
      file: File, rule: Rule)
    requires rule in plugin
    ensures var last := LastMatching(overrides, file);
            Found(Layered(base, TotalOverrides(plugin, overrides), file), rule)
              == if last.Some? then Some(StatedAlone(last.value, rule)) else Found(base, rule)
  {
    if overrides != [] {
      TotalInit(plugin, overrides);
      LastDecides(plugin, base, overrides[..|overrides| - 1], file, rule);
    }
  }

  /** Rules of other plugins are layered as they were. */
  lemma {:induction false} OthersUnchanged(plugin: set<Rule>, base: map<Rule, Setting>, overrides: seq<Override>,
      file: File, rule: Rule)
    requires rule !in plugin
    ensures Found(Layered(base, TotalOverrides(plugin, overrides), file), rule)
            == Found(Layered(base, overrides, file), rule)
  {
    if overrides != [] {
      TotalInit(plugin, overrides);
      OthersUnchanged(plugin, base, overrides[..|overrides| - 1], file, rule);
    }
  }

  /** An override that is silent on a rule leaves what came before; so plain layering lets a setting leak
      from an earlier, broader group exactly when the last matching one is silent and an earlier layer is on. */
  lemma {:induction false} LeaksExactly(plugin: set<Rule>, base: map<Rule, Setting>, overrides: seq<Override>,
      file: File, rule: Rule)
    requires rule in plugin && LastMatching(overrides, file).Some?
    ensures var plain := Found(Layered(base, overrides, file), rule);
            var total := Found(Layered(base, TotalOverrides(plugin, overrides), file), rule);
            plain.Some? && plain != total <==>
              rule !in LastMatching(overrides, file).value.rules && plain.Some? && plain != Some(Off)
  {
    LastDecides(plugin, base, overrides, file, rule);
    LastSays(base, overrides, file, rule);
  }

  lemma {:induction false} LastSays(base: map<Rule, Setting>, overrides: seq<Override>, file: File, rule: Rule)
    ensures var last := LastMatching(overrides, file);
            last.Some? && rule in last.value.rules ==>
              Found(Layered(base, overrides, file), rule) == Some(last.value.rules[rule])
  {
    if overrides != [] { LastSays(base, overrides[..|overrides| - 1], file, rule); }
  }

  /** Later overrides that state no plugin rule leave the decision as it is. */
  lemma {:induction false} WholeConfiguration(
      plugin: set<Rule>, base: map<Rule, Setting>, overrides: seq<Override>, trailing: seq<Override>,
      file: File, rule: Rule)
    requires rule in plugin
    requires forall i :: 0 <= i < |trailing| ==> rule !in trailing[i].rules
    ensures var last := LastMatching(overrides, file);
            Found(Layered(base, TotalOverrides(plugin, overrides) + trailing, file), rule)
              == if last.Some? then Some(StatedAlone(last.value, rule)) else Found(base, rule)
  {
    var all := TotalOverrides(plugin, overrides) + trailing;
    if trailing == [] {
      assert all == TotalOverrides(plugin, overrides);
      LastDecides(plugin, base, overrides, file, rule);
    } else {
      var n := |trailing| - 1;
      assert all[..|all| - 1] == TotalOverrides(plugin, overrides) + trailing[..n];
      WholeConfiguration(plugin, base, overrides, trailing[..n], file, rule);
    }
  }

  // ---- Presets ------------------------------------------------------------------------------------------------

  /** Every rule any preset names, at one severity. */
  function PresetRules(presets: seq<map<Rule, Setting>>, severity: Setting): map<Rule, Setting> {
    if presets == [] then map[]
    else
      var last := presets[|presets| - 1];
      PresetRules(presets[..|presets| - 1], severity) + (map rule | rule in last :: severity)
  }

  lemma {:induction false} PresetsExactly(presets: seq<map<Rule, Setting>>, severity: Setting, rule: Rule)
    ensures Found(PresetRules(presets, severity), rule)
         == if exists i :: 0 <= i < |presets| && rule in presets[i] then Some(severity) else None
  {
    if presets != [] {
      var n := |presets| - 1;
      PresetsExactly(presets[..n], severity, rule);
      if i :| 0 <= i < n && rule in presets[i] { assert rule in presets[..n][i]; }
      if i :| 0 <= i < n && rule in presets[..n][i] { assert rule in presets[i]; }
    }
  }

  /** Switching one set of presets off after another was switched on leaves on exactly the others' own rules. */
  lemma OffAfterOn(on: seq<map<Rule, Setting>>, off: seq<map<Rule, Setting>>, severity: Setting, rule: Rule)
    ensures Found(PresetRules(on, severity) + PresetRules(off, Off), rule)
         == if exists i :: 0 <= i < |off| && rule in off[i] then Some(Off)
            else if exists i :: 0 <= i < |on| && rule in on[i] then Some(severity) else None
  {
    PresetsExactly(on, severity, rule);
    PresetsExactly(off, Off, rule);
  }
}
