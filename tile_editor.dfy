/**
  The build mode of the tile editor (src/tile_editor.rs): which tile a click
  places, on which layer, and with which placement method.  `on_keypress`
  changes it in place through one else-if chain over the keys pressed in this
  frame.
*/
module TileEditor {

  /** The placement methods of the tile placer (`PlacementMode`). */
  datatype PlacementMode = Place | TryPlace | Toggle | ToggleMatch | Replace | Remove

  /** `PLACE_MODES`: the modes the Up and Down keys cycle through, in order. */
  const PlaceModes: seq<PlacementMode> := [Place, TryPlace, Toggle, ToggleMatch, Replace, Remove]

  /** The keys `on_keypress` tests; any other key is `Other`. */
  datatype KeyCode = W | G | D | E | P | Up | Down | Key1 | Key2 | Key3 | Comma | Period | Other

  /** The position of a key in the else-if chain; keys the chain does not test come last. */
  function Rank(k: KeyCode): nat {
    match k
    case W => 0
    case G => 1
    case D => 2
    case E => 3
    case P => 4
    case Up => 5
    case Down => 6
    case Key1 => 7
    case Key2 => 8
    case Key3 => 9
    case Comma => 10
    case Period => 11
    case Other => 12
  }

  /** The tile names the letter keys select. */
  const TileNames: set<string> := {"Wall", "Glass", "Dirt", "Empty", "Pipe"}

  /** The value held by the `BuildMode` resource. */
  datatype Settings = Settings(tileName: string, activeLayer: nat, mode: nat)

  /** Every value the resource can take: a known tile, layer 0 to 2, a mode index in range. */
  predicate WellFormed(s: Settings) {
    s.tileName in TileNames && s.activeLayer <= 2 && s.mode < |PlaceModes|
  }

  /** The settings the editor starts with (src/tile_editor.rs:67-71). */
  function Initial(): (s: Settings)
    ensures WellFormed(s) && PlaceModes[s.mode] == Place
    ensures s.tileName == "Wall" && s.activeLayer == 0
  {
    Settings("Wall", 0, 0)
  }

  /**
    The key the else-if chain acts on: the pressed key that comes first in the
    chain, or `Other` when none of the tested keys was pressed.
  */
  function Chosen(keys: set<KeyCode>): KeyCode {
    if W in keys then W
    else if G in keys then G
    else if D in keys then D
    else if E in keys then E
    else if P in keys then P
    else if Up in keys then Up
    else if Down in keys then Down
    else if Key1 in keys then Key1
    else if Key2 in keys then Key2
    else if Key3 in keys then Key3
    else if Comma in keys then Comma
    else if Period in keys then Period
    else Other
  }

  /** What one key of the chain does to the settings. */
  function Apply(s: Settings, k: KeyCode): Settings {
    match k
    case W => s.(tileName := "Wall")
    case G => s.(tileName := "Glass")
    case D => s.(tileName := "Dirt")
    case E => s.(tileName := "Empty")
    case P => s.(tileName := "Pipe")
    case Up => s.(mode := (s.mode + 1) % |PlaceModes|)
    case Down => s.(mode := if s.mode == 0 then |PlaceModes| - 1 else s.mode - 1)
    case Key1 => s.(activeLayer := 0)
    case Key2 => s.(activeLayer := 1)
    case Key3 => s.(activeLayer := 2)
    // Comma and Period save and load the map, which leaves the build mode alone.
    case Comma => s
    case Period => s
    case Other => s
  }

  /** The settings after one run of `on_keypress` with `keys` just pressed. */
  function KeyPress(s: Settings, keys: set<KeyCode>): Settings {
    Apply(s, Chosen(keys))
  }

  /** The number of fields in which two settings differ. */
  function Changed(s: Settings, t: Settings): nat {
    (if s.tileName != t.tileName then 1 else 0)
    + (if s.activeLayer != t.activeLayer then 1 else 0)
    + (if s.mode != t.mode then 1 else 0)
  }

  // ---------------------------------------------------------------------------
  // Properties of a key press
  // ---------------------------------------------------------------------------

  /** A key press keeps the settings well formed, so the mode always indexes `PlaceModes`. */
  lemma KeyPressWellFormed(s: Settings, keys: set<KeyCode>)
    requires WellFormed(s)
    ensures WellFormed(KeyPress(s, keys))
  {
  }

  /** One run of the chain changes at most one field of the build mode. */
  lemma KeyPressChangesOneField(s: Settings, keys: set<KeyCode>)
    ensures Changed(s, KeyPress(s, keys)) <= 1
  {
  }

  /** A frame in which only save, load or untested keys were pressed leaves the build mode alone. */
  lemma IdleKeysChangeNothing(s: Settings, keys: set<KeyCode>)
    requires forall k :: k in keys ==> Rank(Comma) <= Rank(k)
    ensures KeyPress(s, keys) == s
  {
  }

  /** The chain acts on a pressed key that no other pressed key precedes, or on none. */
  lemma ChosenIsFirstPressed(keys: set<KeyCode>)
    ensures Chosen(keys) != Other ==> Chosen(keys) in keys
    ensures forall k :: k in keys ==> Rank(Chosen(keys)) <= Rank(k)
  {
  }

  /** What each key does when it is the only one pressed. */
  lemma SingleKey(s: Settings)
    ensures KeyPress(s, {W}) == s.(tileName := "Wall")
    ensures KeyPress(s, {G}) == s.(tileName := "Glass")
    ensures KeyPress(s, {D}) == s.(tileName := "Dirt")
    ensures KeyPress(s, {E}) == s.(tileName := "Empty")
    ensures KeyPress(s, {P}) == s.(tileName := "Pipe")
    ensures KeyPress(s, {Up}) == s.(mode := (s.mode + 1) % |PlaceModes|)
    ensures KeyPress(s, {Down}) == s.(mode := if s.mode == 0 then |PlaceModes| - 1 else s.mode - 1)
    ensures KeyPress(s, {Key1}) == s.(activeLayer := 0)
    ensures KeyPress(s, {Key2}) == s.(activeLayer := 1)
    ensures KeyPress(s, {Key3}) == s.(activeLayer := 2)
    ensures KeyPress(s, {Comma}) == s && KeyPress(s, {Period}) == s && KeyPress(s, {}) == s
  {
  }

  /** A key that comes later in the chain than a pressed one has no effect. */
  lemma LaterKeyIgnored(s: Settings, keys: set<KeyCode>, first: KeyCode, later: KeyCode)
    requires first in keys && Rank(first) < Rank(later)
    ensures KeyPress(s, keys - {later}) == KeyPress(s, keys)
  {
  }

  /** Up then Down gives back the original mode, and so does Down then Up. */
  lemma UpDownInverse(s: Settings)
    requires s.mode < |PlaceModes|
    ensures KeyPress(KeyPress(s, {Up}), {Down}) == s
    ensures KeyPress(KeyPress(s, {Down}), {Up}) == s
  {
    assert Chosen({Up}) == Up && Chosen({Down}) == Down;
  }

  /** Down steps the mode one place back, cyclically. */
  lemma DownIsPrevious(s: Settings)
    requires s.mode < |PlaceModes|
    ensures KeyPress(s, {Down}).mode == (s.mode + |PlaceModes| - 1) % |PlaceModes|
    ensures KeyPress(s, {Down}).mode < |PlaceModes|
  {
    assert Chosen({Down}) == Down;
  }

  /** Pressing `k` alone `n` times. */
  function Repeat(s: Settings, k: KeyCode, n: nat): Settings {
    if n == 0 then s else KeyPress(Repeat(s, k, n - 1), {k})
  }

  /** `n` presses of Up advance the mode by `n` places, cyclically. */
  lemma {:induction false} UpCycles(s: Settings, n: nat)
    requires s.mode < |PlaceModes|
    ensures Repeat(s, Up, n) == s.(mode := (s.mode + n) % |PlaceModes|)
  {
    if n > 0 {
      UpCycles(s, n - 1);
      assert Chosen({Up}) == Up;
    }
  }

  /** As many Up presses as there are modes bring the editor back to its mode. */
  lemma UpFullCycle(s: Settings)
    requires s.mode < |PlaceModes|
    ensures Repeat(s, Up, |PlaceModes|) == s
  {
    UpCycles(s, |PlaceModes|);
  }

  /** Every placement method is at most five presses of Up away. */
  lemma EveryModeReachable(s: Settings, m: PlacementMode)
    requires s.mode < |PlaceModes| && m in PlaceModes
    ensures exists n :: 0 <= n < |PlaceModes| && PlaceModes[Repeat(s, Up, n).mode] == m
  {
    var i :| 0 <= i < |PlaceModes| && PlaceModes[i] == m;
    var n: nat := if s.mode <= i then i - s.mode else i + |PlaceModes| - s.mode;
    assert (s.mode + n) % |PlaceModes| == i;
    UpCycles(s, n);
    var t := Repeat(s, Up, n);
    assert t.mode == (s.mode + n) % |PlaceModes|;
    assert PlaceModes[t.mode] == m;
  }

  // ---------------------------------------------------------------------------
  // The resource
  // ---------------------------------------------------------------------------

  /** The `BuildMode` resource, changed in place by `on_keypress`. */
  class BuildMode {
    var tileName: string
    var activeLayer: nat
    var mode: nat

    function State(): Settings
      reads this
    {
      Settings(tileName, activeLayer, mode)
    }

    ghost predicate Valid()
      reads this
    {
      WellFormed(State())
    }

    /** The resource as the editor plugin inserts it. */
    constructor ()
      ensures State() == Initial() && Valid()
    {
      tileName := "Wall";
      activeLayer := 0;
      mode := 0;
    }

    /** `on_keypress` (src/tile_editor.rs:152-193) without the map save/load branches. */
    method OnKeypress(keys: set<KeyCode>)
      modifies this
      ensures State() == KeyPress(old(State()), keys)
      ensures old(Valid()) ==> Valid()
    {
      if W in keys {
        tileName := "Wall";
      } else if G in keys {
        tileName := "Glass";
      } else if D in keys {
        tileName := "Dirt";
      } else if E in keys {
        tileName := "Empty";
      } else if P in keys {
        tileName := "Pipe";
      } else if Up in keys {
        mode := (mode + 1) % |PlaceModes|;
      } else if Down in keys {
        mode := if mode == 0 then |PlaceModes| - 1 else mode - 1;
      } else if Key1 in keys {
        activeLayer := 0;
      } else if Key2 in keys {
        activeLayer := 1;
      } else if Key3 in keys {
        activeLayer := 2;
      } else if Comma in keys {
        // saving the map does not touch the build mode
      } else if Period in keys {
        // loading the map does not touch the build mode
      }
    }

    /** The placement method a click uses (`PLACE_MODES[build_mode.mode]`). */
    function PlacementModeOf(): (m: PlacementMode)
      reads this
      requires Valid()
      ensures m in PlaceModes
      ensures forall i :: 0 <= i < |PlaceModes| && PlaceModes[i] == m ==> i == mode
    {
      PlaceModes[mode]
    }
  }
}
