/**
 * The key-down test of the `useHotkey` hook (src/logic/client/use-hotkey.tsx):
 * whether a keyboard event matches one of the configured key combinations,
 * and what the handler then does.
 */
module Hotkey {
  import opened Wrappers
  import opened Text

  /** The optional modifier flags of a combination; an absent flag is `None`. */
  datatype HotkeyOptions = HotkeyOptions(ctrl: Option<bool>, meta: Option<bool>, shift: Option<bool>, alt: Option<bool>)

  datatype KeyCombination = KeyCombination(key: string, options: HotkeyOptions)

  /** The parts of a `KeyboardEvent` the test reads. */
  datatype KeyEvent = KeyEvent(key: string, ctrlKey: bool, metaKey: bool, shiftKey: bool, altKey: bool)

  /** What the handler does with the event. */
  datatype Reaction = Reaction(defaultPrevented: bool, callbackCalled: bool)

  /** A flag is truthy only when it is present and `true`. */
  predicate Truthy(flag: Option<bool>) {
    flag == Some(true)
  }

  /** The per-combination test exactly as the handler computes it. */
  predicate ComboMatches(event: KeyEvent, combo: KeyCombination) {
    var o := combo.options;
    var keyMatches := ToLower(event.key) == ToLower(combo.key);
    var ctrlMatches := !Truthy(o.ctrl) || event.ctrlKey;
    var metaMatches := !Truthy(o.meta) || event.metaKey;
    var shiftMatches := !Truthy(o.shift) || event.shiftKey;
    var altMatches := !Truthy(o.alt) || event.altKey;
    var modifiersMatch :=
      !(Truthy(o.ctrl) || Truthy(o.meta) || Truthy(o.shift) || Truthy(o.alt))
      || (Truthy(o.ctrl) && event.ctrlKey)
      || (Truthy(o.meta) && event.metaKey)
      || (Truthy(o.shift) && event.shiftKey)
      || (Truthy(o.alt) && event.altKey);
    keyMatches && ctrlMatches && metaMatches && shiftMatches && altMatches && modifiersMatch
  }

  /** Every modifier the combination asks for is held down. */
  predicate RequestedHeld(event: KeyEvent, o: HotkeyOptions) {
    && (Truthy(o.ctrl) ==> event.ctrlKey)
    && (Truthy(o.meta) ==> event.metaKey)
    && (Truthy(o.shift) ==> event.shiftKey)
    && (Truthy(o.alt) ==> event.altKey)
  }

  /** `keyCombinations.some(...)`. */
  predicate IsHotkeyPressed(event: KeyEvent, combos: seq<KeyCombination>)
    decreases |combos|
  {
    combos != [] && (ComboMatches(event, combos[0]) || IsHotkeyPressed(event, combos[1..]))
  }

  /** The handler prevents the default action and calls back exactly when a combination matches. */
  function HandleKeyDown(event: KeyEvent, combos: seq<KeyCombination>): (r: Reaction)
    ensures r.defaultPrevented == r.callbackCalled
  {
    if IsHotkeyPressed(event, combos) then Reaction(true, true) else Reaction(false, false)
  }

  /** The event counts as the hotkey exactly when some combination matches it. */
  lemma {:induction false} PressedIffSomeMatches(event: KeyEvent, combos: seq<KeyCombination>)
    ensures IsHotkeyPressed(event, combos) <==> exists i :: 0 <= i < |combos| && ComboMatches(event, combos[i])
    decreases |combos|
  {
    if combos != [] {
      PressedIffSomeMatches(event, combos[1..]);
      if IsHotkeyPressed(event, combos[1..]) {
        var i :| 0 <= i < |combos[1..]| && ComboMatches(event, combos[1..][i]);
        assert combos[i + 1] == combos[1..][i];
      }
      if exists i :: 0 <= i < |combos| && ComboMatches(event, combos[i]) {
        var i :| 0 <= i < |combos| && ComboMatches(event, combos[i]);
        if i > 0 {
          assert combos[1..][i - 1] == combos[i];
        }
      }
    }
  }

  /** With no combinations configured nothing is ever the hotkey. */
  lemma NoCombinationsNeverPressed(event: KeyEvent)
    ensures !IsHotkeyPressed(event, [])
    ensures HandleKeyDown(event, []) == Reaction(false, false)
  {
  }

  /**
   * The closing `modifiersMatch` term adds nothing: a combination matches
   * exactly when the key agrees, ignoring case, and every requested modifier
   * is held.
   */
  lemma ModifiersMatchRedundant(event: KeyEvent, combo: KeyCombination)
    ensures ComboMatches(event, combo) <==>
      ToLower(event.key) == ToLower(combo.key) && RequestedHeld(event, combo.options)
  {
  }

  /** The key is compared without regard to letter case, on either side. */
  lemma KeyCaseInsensitive(event: KeyEvent, combo: KeyCombination)
    ensures ComboMatches(event.(key := ToLower(event.key)), combo) == ComboMatches(event, combo)
    ensures ComboMatches(event, combo.(key := ToLower(combo.key))) == ComboMatches(event, combo)
  {
    ToLowerIdempotent(event.key);
    ToLowerIdempotent(combo.key);
  }

  /** A requested modifier that is not held means no match. */
  lemma RequestedModifierRequired(event: KeyEvent, combo: KeyCombination)
    requires ComboMatches(event, combo)
    ensures RequestedHeld(event, combo.options)
  {
  }

  /** Holding extra modifiers never spoils a match. */
  lemma ExtraModifiersIgnored(event: KeyEvent, more: KeyEvent, combo: KeyCombination)
    requires ComboMatches(event, combo)
    requires more.key == event.key
    requires event.ctrlKey ==> more.ctrlKey
    requires event.metaKey ==> more.metaKey
    requires event.shiftKey ==> more.shiftKey
    requires event.altKey ==> more.altKey
    ensures ComboMatches(more, combo)
  {
  }

  /** A combination with no modifiers requested matches its key whatever is held. */
  lemma PlainKeyMatchesAnyModifiers(event: KeyEvent, combo: KeyCombination)
    requires !Truthy(combo.options.ctrl) && !Truthy(combo.options.meta)
    requires !Truthy(combo.options.shift) && !Truthy(combo.options.alt)
    ensures ComboMatches(event, combo) <==> ToLower(event.key) == ToLower(combo.key)
  {
  }

  /** The callback runs, and the default is prevented, exactly when some combination matches. */
  lemma HandleKeyDownSpec(event: KeyEvent, combos: seq<KeyCombination>)
    ensures HandleKeyDown(event, combos).callbackCalled <==>
      exists i :: 0 <= i < |combos| && ComboMatches(event, combos[i])
    ensures HandleKeyDown(event, combos).defaultPrevented <==>
      exists i :: 0 <= i < |combos| && ComboMatches(event, combos[i])
  {
    PressedIffSomeMatches(event, combos);
  }
}
