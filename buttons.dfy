/**
 * The small decision and state logic of an editor plugin's buttons: class
 * naming, the button-state map and `isEnabled`, the callback normalisation,
 * exact key-modifier matching and the arrow-key shortcuts.
 */
module Buttons {
  import opened Dom

  /** The two values of `buttonStates`. */
  const DISABLED := 0
  const ENABLED := 1

  /** The class `addButton` gives the button node, and the name it files the button under. */
  datatype Naming = Naming(buttonClass: string, buttonName: string)

  function BaseClass(plugin: string): string
  {
    "ousupsub_" + plugin + "_button"
  }

  /** `s` ends with `suffix`. */
  predicate EndsWith(s: string, suffix: string)
  {
    |suffix| <= |s| && s[|s| - |suffix|..] == suffix
  }

  /**
   * The naming part of `addButton`. The empty string stands for an unset
   * (falsy) `exec` or `buttonName`. The class is the plugin's base class,
   * then `_exec` when there is an exec, then `_buttonName` when a name was
   * given; a button without a name is filed under its exec, or else under the
   * plugin's name.
   */
  function ButtonNaming(plugin: string, exec: string, buttonName: string): (n: Naming)
    ensures |BaseClass(plugin)| <= |n.buttonClass| && n.buttonClass[..|BaseClass(plugin)|] == BaseClass(plugin)
    ensures |n.buttonClass| == |BaseClass(plugin)| + (if exec == "" then 0 else 1 + |exec|) + (if buttonName == "" then 0 else 1 + |buttonName|)
    ensures buttonName != "" ==> EndsWith(n.buttonClass, "_" + buttonName) && n.buttonName == buttonName
    ensures exec != "" ==> n.buttonClass[|BaseClass(plugin)|..|BaseClass(plugin)| + 1 + |exec|] == "_" + exec
    ensures buttonName == "" && exec != "" ==> EndsWith(n.buttonClass, "_" + exec) && n.buttonName == exec
    ensures buttonName == "" && exec == "" ==> n.buttonClass == BaseClass(plugin) && n.buttonName == plugin
    ensures plugin != "" ==> n.buttonName != ""
  {
    var base := BaseClass(plugin);
    var withExec := if exec != "" then base + "_" + exec else base;
    if buttonName == "" then
      Naming(withExec, if exec != "" then exec else plugin)
    else
      Naming(withExec + "_" + buttonName, buttonName)
  }

  /**
   * The button bookkeeping of a plugin: `buttons` holds the names that have
   * a button node, `disabled` those whose node carries the `disabled`
   * attribute.
   */
  class PluginButtons {
    var buttons: set<string>
    var buttonNames: seq<string>
    var buttonStates: map<string, int>
    var disabled: set<string>

    /** Every registered name has a node and a state, and a button's state agrees with its `disabled` attribute. */
    ghost predicate Valid()
      reads this
    {
      buttons == (set n | n in buttonNames)
      && buttonStates.Keys == buttons
      && disabled <= buttons
      && (forall n :: n in buttonStates ==> (buttonStates[n] == DISABLED <==> n in disabled))
      && (forall n :: n in buttonStates ==> buttonStates[n] == DISABLED || buttonStates[n] == ENABLED)
    }

    /** Some button of the plugin is enabled. */
    ghost predicate AnyEnabled()
      reads this
    {
      exists n :: n in buttonStates && buttonStates[n] == ENABLED
    }

    /** The plugin's `initializer`: no buttons yet. */
    constructor()
      ensures Valid()
      ensures buttons == {} && buttonNames == [] && buttonStates == map[] && disabled == {}
    {
      buttons := {};
      buttonNames := [];
      buttonStates := map[];
      disabled := {};
    }

    /** The end of `addButton`: the new node is filed under its name and starts enabled. */
    method Register(name: string)
      requires Valid()
      modifies this
      ensures Valid()
      ensures buttonNames == old(buttonNames) + [name]
      ensures buttons == old(buttons) + {name}
      ensures buttonStates == old(buttonStates)[name := ENABLED]
      ensures disabled == old(disabled) - {name}
      ensures AnyEnabled()
    {
      buttonNames := buttonNames + [name];
      buttons := buttons + {name};
      buttonStates := buttonStates[name := ENABLED];
      disabled := disabled - {name};
      assert buttonStates[name] == ENABLED;
    }

    /** `isEnabled`: looks through the state map for an enabled button. */
    method IsEnabled() returns (found: bool)
      ensures found <==> exists n :: n in buttonStates && buttonStates[n] == ENABLED
    {
      var rest := buttonStates.Keys;
      while rest != {}
        invariant rest <= buttonStates.Keys
        invariant forall n :: n in buttonStates && n !in rest ==> buttonStates[n] != ENABLED
        decreases rest
      {
        var n :| n in rest;
        if buttonStates[n] == ENABLED {
          return true;
        }
        rest := rest - {n};
      }
      return false;
    }

    /**
     * `_setButtonState`: one named button, when it has a node, or every
     * button of `buttonNames` gets the new state and the matching `disabled`
     * attribute. A name without a node changes nothing. A missing name and
     * the empty name are both falsy, so both mean every button.
     */
    method SetButtonState(enable: bool, button: Option<string>)
      requires Valid()
      modifies this
      ensures Valid()
      ensures buttons == old(buttons) && buttonNames == old(buttonNames)
      ensures Given(button) && button.value !in old(buttons)
        ==> buttonStates == old(buttonStates) && disabled == old(disabled)
      ensures Given(button) && button.value in old(buttons) ==> (
        && buttonStates == old(buttonStates)[button.value := if enable then ENABLED else DISABLED]
        && disabled == (if enable then old(disabled) - {button.value} else old(disabled) + {button.value}))
      ensures !Given(button) ==> (
        && (forall n :: n in buttonStates ==> buttonStates[n] == if enable then ENABLED else DISABLED)
        && disabled == (if enable then {} else buttons))
      ensures !Given(button) ==> (AnyEnabled() <==> enable && buttonNames != [])
    {
      var state := if enable then ENABLED else DISABLED;
      if Given(button) {
        var b := button.value;
        if b in buttons {
          disabled := if enable then disabled - {b} else disabled + {b};
          buttonStates := buttonStates[b := state];
        }
      } else {
        var i := 0;
        while i < |buttonNames|
          invariant i <= |buttonNames|
          invariant buttons == old(buttons) && buttonNames == old(buttonNames)
          invariant buttonStates.Keys == buttons && disabled <= buttons
          invariant forall n :: n in buttonStates ==> (buttonStates[n] == DISABLED <==> n in disabled)
          invariant forall n :: n in buttonStates ==> buttonStates[n] == DISABLED || buttonStates[n] == ENABLED
          invariant forall j :: 0 <= j < i ==> buttonStates[buttonNames[j]] == state
        {
          var b := buttonNames[i];
          disabled := if enable then disabled - {b} else disabled + {b};
          buttonStates := buttonStates[b := state];
          i := i + 1;
        }
        forall n | n in buttonStates
          ensures buttonStates[n] == state
        {
          var j :| 0 <= j < |buttonNames| && buttonNames[j] == n;
        }
        if enable {
          assert disabled == {};
        } else {
          assert disabled == buttons;
        }
        if enable && buttonNames != [] {
          assert buttonNames[0] in buttonStates;
        }
      }
    }
  }

  /** The identity of a callback function, or the wrapper `_normalizeCallback` binds around one. */
  datatype Callback =
    | Handler(id: nat)
    | Wrapped(callback: Option<Callback>, args: Option<nat>)

  /** `if (button)`: a name was passed and it is not the empty string. */
  predicate Given(button: Option<string>)
  {
    button.Some? && button.value != ""
  }

  /** The callback-related fields of a button configuration. */
  class ButtonConfig {
    var callback: Option<Callback>
    var innerCallback: Option<Callback>   // `_callback`
    var callbackArgs: Option<nat>
    var normalized: bool                  // `_callbackNormalized`

    constructor(callback: Option<Callback>, callbackArgs: Option<nat>)
      ensures this.callback == callback && this.callbackArgs == callbackArgs
      ensures innerCallback.None? && !normalized
    {
      this.callback := callback;
      this.callbackArgs := callbackArgs;
      innerCallback := None;
      normalized := false;
    }
  }

  /**
   * `_normalizeCallback`: a configuration that is already flagged comes back
   * untouched. Otherwise its own callback, or else the inherited one, is
   * kept as `_callback`, `callback` becomes the wrapper around it, and the
   * flag is set, so a second call changes nothing.
   */
  method NormalizeCallback(config: ButtonConfig, inheritFrom: Option<ButtonConfig>) returns (r: ButtonConfig)
    modifies config
    ensures r == config && config.normalized
    ensures old(config.normalized) ==> unchanged(config)
    ensures !old(config.normalized) ==>
      && config.innerCallback == (if old(config.callback).Some? then old(config.callback)
                                  else if inheritFrom.Some? then old(inheritFrom.value.callback) else None)
      && config.callback == Some(Wrapped(config.innerCallback, config.callbackArgs))
      && config.callbackArgs == old(config.callbackArgs)
  {
    if config.normalized {
      return config;
    }
    var inherited := if inheritFrom.Some? then inheritFrom.value.callback else None;
    config.innerCallback := if config.callback.Some? then config.callback else inherited;
    config.callback := Some(Wrapped(config.innerCallback, config.callbackArgs));
    config.normalized := true;
    return config;
  }

  /** The modifier flags of a key event. */
  datatype KeyEvent = KeyEvent(kind: string, altKey: bool, ctrlKey: bool, metaKey: bool, shiftKey: bool)

  /** `Y.Array.indexOf`: the first index of `x`, or -1. */
  function IndexOf(xs: seq<string>, x: string): (i: int)
    ensures -1 <= i < |xs|
    ensures i == -1 <==> x !in xs
    ensures 0 <= i ==> xs[i] == x && x !in xs[..i]
  {
    if xs == [] then -1
    else if xs[0] == x then 0
    else
      var j := IndexOf(xs[1..], x);
      assert xs[1..] == xs[1..][..|xs[1..]|];
      if j == -1 then -1
      else
        assert xs[..j + 1] == [xs[0]] + xs[1..][..j];
        j + 1
  }

  /**
   * `_eventUsesExactKeyModifiers`: only a `key` event can match, and then
   * only when each of alt, ctrl, meta and shift is pressed exactly when it is
   * listed.
   */
  function EventUsesExactKeyModifiers(modifiers: seq<string>, e: KeyEvent): (r: bool)
    ensures r <==> (
      && e.kind == "key"
      && (e.altKey <==> "alt" in modifiers)
      && (e.ctrlKey <==> "ctrl" in modifiers)
      && (e.metaKey <==> "meta" in modifiers)
      && (e.shiftKey <==> "shift" in modifiers))
  {
    if e.kind != "key" then false
    else
      var hasAlt := IndexOf(modifiers, "alt") > -1;
      var exact := true && ((e.altKey && hasAlt) || (!e.altKey && !hasAlt));
      var hasCtrl := IndexOf(modifiers, "ctrl") > -1;
      var exact := exact && ((e.ctrlKey && hasCtrl) || (!e.ctrlKey && !hasCtrl));
      var hasMeta := IndexOf(modifiers, "meta") > -1;
      var exact := exact && ((e.metaKey && hasMeta) || (!e.metaKey && !hasMeta));
      var hasShift := IndexOf(modifiers, "shift") > -1;
      exact && ((e.shiftKey && hasShift) || (!e.shiftKey && !hasShift))
  }

  /** What the editor's key listeners do with one key code. */
  datatype KeyResponse = KeyResponse(textCommand: Option<int>, preventDefault: bool)

  /**
   * The listeners of `_preventEnter` and `_handle_key_press` together: up
   * arrow or `^` runs `_applyTextCommand(1)`, down arrow or `_` runs
   * `_applyTextCommand(-1)`, Enter only has its default prevented.
   */
  function KeyPress(keyCode: int): (r: KeyResponse)
    ensures r.textCommand == Some(1) <==> keyCode == 38 || keyCode == 94
    ensures r.textCommand == Some(-1) <==> keyCode == 40 || keyCode == 95
    ensures r.textCommand.None? <==> keyCode !in {38, 94, 40, 95}
    ensures r.preventDefault <==> keyCode == 13
    ensures r.preventDefault ==> r.textCommand.None?
  {
    var command :=
      if keyCode == 38 || keyCode == 94 then Some(1)
      else if keyCode == 40 || keyCode == 95 then Some(-1)
      else None;
    KeyResponse(command, keyCode == 13)
  }
}
