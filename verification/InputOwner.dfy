/** Who gets a controller button: the guest or the on-screen keyboard. */
module InputOwner {
  import opened Wrappers

  datatype Owner = Neutral | Gameplay | Osk

  /** The keyboard takes input while visible and covers the screen until its closing animation ends. */
  datatype Keyboard = Keyboard(visible: bool, animating: bool) {
    predicate Rendering() { visible || animating }
    function Hidden(): (k: Keyboard) { if visible then Keyboard(false, true) else this }
  }

  /** The options that routing depends on: keyboard enabled, and its toggle as an entry of the button table. */
  datatype Options = Options(enabled: bool, toggle: Option<nat>)

  /** Button i of 28: two ports with 14 table entries each, of which entry 5 is the east button. */
  predicate IsToggle(o: Options, i: nat) { o.enabled && o.toggle == Some(i % 14) }

  predicate HidesKeyboard(o: Options, i: nat) { o.enabled && i % 14 == 5 && o.toggle != Some(5) }

  /** Last physical state, owner, and what the guest was last told. */
  datatype Button = Button(last: bool, owner: Owner, guest: bool)

  const RELEASED := Button(false, Neutral, false)

  /** route_libretro_joy_button. */
  function Route(k: Keyboard, b: Button, state: bool): (c: Button) {
    var owner := if b.owner.Neutral? && state then (if k.Rendering() then Osk else Gameplay) else b.owner;
    var after := if state then owner else Neutral;
    if owner.Gameplay? then Button(b.last, after, state)
    else if owner.Osk? then Button(b.last, after, b.guest)
    else Button(b.last, after, state)
  }

  /** route_libretro_joy_button hands the button to the visible keyboard, where it can press a key. */
  predicate KeyboardTakes(k: Keyboard, b: Button, state: bool) {
    k.visible && (b.owner.Osk? || (b.owner.Neutral? && state))
  }

  /** The keyboard after a button it took; some keys hide it. */
  function AfterKey(k: Keyboard, b: Button, state: bool, hides: bool): (l: Keyboard) {
    if KeyboardTakes(k, b, state) && hides then k.Hidden() else k
  }

  datatype State = State(buttons: seq<Button>, keyboard: Keyboard, toggles: nat)

  function AllReleased(n: nat): (bs: seq<Button>)
    ensures |bs| == n && forall i :: 0 <= i < n ==> bs[i] == RELEASED
  {
    if n == 0 then [] else AllReleased(n - 1) + [RELEASED]
  }

  const START := State(AllReleased(28), Keyboard(false, false), 0)

  predicate Valid(s: State) { |s.buttons| == 28 }

  /** The part of poll_input for one button of a connected port; hides says whether a key it works hides the keyboard. */
  function StepButton(o: Options, s: State, i: nat, state: bool, hides: bool): (t: State)
    requires Valid(s) && i < 28
    ensures Valid(t)
  {
    var b := s.buttons[i].(last := state);
    var rises := state && !s.buttons[i].last;
    if IsToggle(o, i) then State(s.buttons[i := b], s.keyboard, s.toggles + (if rises then 1 else 0))
    else if HidesKeyboard(o, i) && KeyboardTakes(s.keyboard, b, state) then
      State(s.buttons[i := b.(owner := if state then Osk else Neutral)], if rises then s.keyboard.Hidden() else s.keyboard, s.toggles)
    else State(s.buttons[i := Route(s.keyboard, b, state)], AfterKey(s.keyboard, b, state, hides), s.toggles)
  }

  /** A poll: the keyboard as it is when the poll starts, the connected ports, the buttons held, and
      which of them would hide the keyboard by the key they work on it. */
  datatype Poll = Poll(keyboard: Keyboard, connected: (bool, bool), pressed: Held, hides: Held)

  /** Something about each of the 28 buttons. */
  type Held = s: seq<bool> | |s| == 28 witness seq(28, _ => false)

  predicate Connected(p: Poll, i: nat) { if i < 14 then p.connected.0 else p.connected.1 }

  /** The first n buttons of a poll. */
  function PollFirst(o: Options, s: State, p: Poll, n: nat): (t: State)
    requires Valid(s) && n <= 28
    ensures Valid(t)
  {
    if n == 0 then s
    else
      var t := PollFirst(o, s, p, n - 1);
      if Connected(p, n - 1) then StepButton(o, t, n - 1, p.pressed[n - 1], p.hides[n - 1]) else t
  }

  function Run(o: Options, ps: seq<Poll>): (s: State)
    ensures Valid(s)
  {
    if ps == [] then START
    else
      var p := ps[|ps| - 1];
      PollFirst(o, Run(o, ps[..|ps| - 1]).(keyboard := p.keyboard), p, 28)
  }

  /** A button is owned exactly while it is down, and the guest has it exactly if gameplay owns it. */
  predicate Settled(b: Button) {
    (b.last <==> !b.owner.Neutral?) && (b.guest <==> b.owner.Gameplay?)
  }

  /** What one poll makes of a settled button, in terms of the screen alone. */
  function Owned(b: Button, state: bool, rendering: bool): (c: Button) {
    var owner := if !state then Neutral else if b.last then b.owner else if rendering then Osk else Gameplay;
    Button(state, owner, owner.Gameplay?)
  }

  lemma StepButtonOwns(o: Options, s: State, i: nat, state: bool, hides: bool)
    requires Valid(s) && i < 28 && !IsToggle(o, i) && Settled(s.buttons[i])
    ensures StepButton(o, s, i, state, hides).buttons[i] == Owned(s.buttons[i], state, s.keyboard.Rendering())
  {
  }

  /** Within a poll the keyboard does not leave the screen, and a button's turn leaves the others alone. */
  lemma {:induction false} PollFirstIsLocal(o: Options, s: State, p: Poll, n: nat)
    requires Valid(s) && n <= 28
    ensures var t := PollFirst(o, s, p, n);
            && t.keyboard.Rendering() == s.keyboard.Rendering()
            && forall j :: n <= j < 28 ==> t.buttons[j] == s.buttons[j]
  {
    hide Route, HidesKeyboard, IsToggle;
    if n > 0 {
      PollFirstIsLocal(o, s, p, n - 1);
    }
  }

  lemma {:induction false} PollOwns(o: Options, s: State, p: Poll, n: nat, i: nat)
    requires Valid(s) && i < n <= 28
    requires !IsToggle(o, i) && Settled(s.buttons[i])
    ensures PollFirst(o, s, p, n).buttons[i]
         == if Connected(p, i) then Owned(s.buttons[i], p.pressed[i], s.keyboard.Rendering()) else s.buttons[i]
    decreases n
  {
    hide StepButton, Owned, Settled, IsToggle;
    PollFirstIsLocal(o, s, p, n - 1);
    var t := PollFirst(o, s, p, n - 1);
    if i == n - 1 {
      StepButtonOwns(o, t, i, p.pressed[i], p.hides[i]);
    } else {
      PollOwns(o, s, p, n - 1, i);
      StepButtonElsewhere(o, t, n - 1, p.pressed[n - 1], p.hides[n - 1], i);
    }
  }

  lemma StepButtonElsewhere(o: Options, s: State, i: nat, state: bool, hides: bool, j: nat)
    requires Valid(s) && i < 28 && j < 28 && i != j
    ensures StepButton(o, s, i, state, hides).buttons[j] == s.buttons[j]
  {
  }

  /**
   * One entry of the table: a press of the toggle asks for the keyboard and does nothing else. A
   * button that a visible keyboard takes hides it by a press of the east button, or by what the key
   * under any other does. No other entry, and no other button, is concerned.
   */
  lemma EntryActs(o: Options, s: State, i: nat, state: bool, hides: bool)
    requires Valid(s) && i < 28
    ensures var t, b, entry := StepButton(o, s, i, state, hides), s.buttons[i], if i < 14 then i else i - 14;
            var toggle, rises := o.enabled && o.toggle == Some(entry), state && !b.last;
            var taken := s.keyboard.visible && (b.owner.Osk? || (b.owner.Neutral? && state));
            var hidden := !toggle && taken && if o.enabled && entry == 5 then rises else hides;
            && t.toggles == s.toggles + (if toggle && rises then 1 else 0)
            && t.keyboard == (if hidden then Keyboard(false, true) else s.keyboard)
            && t.buttons[i].last == state
            && (toggle ==> t.buttons[i].owner == b.owner && t.buttons[i].guest == b.guest)
            && forall j :: 0 <= j < 28 && j != i ==> t.buttons[j] == s.buttons[j]
  {
  }

  /** The first 14 buttons belong to the first port, the others to the second; without it they rest. */
  lemma {:induction false} PortsApart(o: Options, s: State, p: Poll, n: nat)
    requires Valid(s) && n <= 28
    ensures var t := PollFirst(o, s, p, n);
            && (!p.connected.0 ==> forall j :: 0 <= j < 14 ==> t.buttons[j] == s.buttons[j])
            && (!p.connected.1 ==> forall j :: 14 <= j < 28 ==> t.buttons[j] == s.buttons[j])
            && (p.connected.0 ==> forall j :: 0 <= j < 14 && j < n ==> t.buttons[j].last == p.pressed[j])
            && (p.connected.1 ==> forall j :: 14 <= j < n ==> t.buttons[j].last == p.pressed[j])
  {
    hide StepButton;
    if n > 0 {
      PortsApart(o, s, p, n - 1);
      EntryActs(o, PollFirst(o, s, p, n - 1), n - 1, p.pressed[n - 1], p.hides[n - 1]);
    }
  }

  /** The button is down in the last poll its port took part in. */
  predicate Down(ps: seq<Poll>, i: nat)
    requires i < 28
  {
    ps != [] &&
    if Connected(ps[|ps| - 1], i) then ps[|ps| - 1].pressed[i] else Down(ps[..|ps| - 1], i)
  }

  /** The button is down, and the keyboard was off the screen when it was pressed. */
  predicate PressedFreely(ps: seq<Poll>, i: nat)
    requires i < 28
  {
    ps != [] &&
    var p, before := ps[|ps| - 1], ps[..|ps| - 1];
    if !Connected(p, i) then PressedFreely(before, i)
    else p.pressed[i] && if Down(before, i) then PressedFreely(before, i) else !p.keyboard.Rendering()
  }

  /**
   * Over every sequence of polls the guest has a button down exactly if it is down and was
   * pressed with the keyboard off the screen: a press under the keyboard never reaches the
   * guest, and a press it saw is released in the very poll that finds the button up.
   */
  lemma {:induction false} GuestSeesFreePresses(o: Options, ps: seq<Poll>, i: nat)
    requires i < 28 && !IsToggle(o, i)
    ensures var b := Run(o, ps).buttons[i];
            Settled(b) && b.last == Down(ps, i) && b.guest == PressedFreely(ps, i)
  {
    hide IsToggle, PollFirst;
    if ps != [] {
      GuestSeesFreePresses(o, ps[..|ps| - 1], i);
      var p := ps[|ps| - 1];
      PollOwns(o, Run(o, ps[..|ps| - 1]).(keyboard := p.keyboard), p, 28, i);
    }
  }

  /** The toggle button itself never reaches the guest. */
  lemma {:induction false} ToggleIsConsumed(o: Options, ps: seq<Poll>, i: nat)
    requires i < 28 && IsToggle(o, i)
    ensures var b := Run(o, ps).buttons[i]; b.owner.Neutral? && !b.guest && b.last == Down(ps, i)
  {
    hide PollFirst, IsToggle;
    if ps != [] {
      ToggleIsConsumed(o, ps[..|ps| - 1], i);
      var p := ps[|ps| - 1];
      PollConsumes(o, Run(o, ps[..|ps| - 1]).(keyboard := p.keyboard), p, 28, i);
    }
  }

  lemma {:induction false} PollConsumes(o: Options, s: State, p: Poll, n: nat, i: nat)
    requires Valid(s) && i < n <= 28 && IsToggle(o, i)
    ensures PollFirst(o, s, p, n).buttons[i]
         == if Connected(p, i) then s.buttons[i].(last := p.pressed[i]) else s.buttons[i]
    decreases n
  {
    hide Route, HidesKeyboard, IsToggle;
    PollFirstIsLocal(o, s, p, n - 1);
    if i < n - 1 {
      PollConsumes(o, s, p, n - 1, i);
    }
  }

  /** Toggle buttons among the first n that go down in this poll. */
  function Rises(o: Options, s: State, p: Poll, n: nat): (c: nat)
    requires Valid(s) && n <= 28
  {
    if n == 0 then 0
    else
      var rises := Connected(p, n - 1) && IsToggle(o, n - 1) && p.pressed[n - 1] && !s.buttons[n - 1].last;
      Rises(o, s, p, n - 1) + (if rises then 1 else 0)
  }

  /** The keyboard is toggled once per press, however long the button is held. */
  lemma {:induction false} TogglesOncePerPress(o: Options, s: State, p: Poll, n: nat)
    requires Valid(s) && n <= 28
    ensures PollFirst(o, s, p, n).toggles == s.toggles + Rises(o, s, p, n)
  {
    hide Route, HidesKeyboard, IsToggle;
    if n > 0 {
      TogglesOncePerPress(o, s, p, n - 1);
      PollFirstIsLocal(o, s, p, n - 1);
    }
  }

  // ----- Axes -----

  /** Owner of an axis, and whether the guest sees it deflected. */
  datatype Axis = Axis(owner: Owner, guest: bool)

  /** One reading of an axis: the keyboard, and whether the stick is out of its dead zone. */
  datatype Reading = Reading(keyboard: Keyboard, deflected: bool)

  /** route_libretro_joy_axis. While the keyboard closes, a gameplay-owned axis is centred for the guest. */
  function RouteAxis(a: Axis, r: Reading): (b: Axis) {
    var k := r.keyboard;
    var owner := if a.owner.Neutral? && r.deflected then (if k.Rendering() then Osk else Gameplay) else a.owner;
    var after := if r.deflected then owner else Neutral;
    if owner.Gameplay? then Axis(after, r.deflected && !(k.Rendering() && !k.visible))
    else if owner.Osk? then Axis(after, a.guest)
    else Axis(after, r.deflected)
  }

  function RunAxis(rs: seq<Reading>): (a: Axis) {
    if rs == [] then Axis(Neutral, false) else RouteAxis(RunAxis(rs[..|rs| - 1]), rs[|rs| - 1])
  }

  /** Deflected, and first so with the keyboard off the screen. */
  predicate DeflectedFreely(rs: seq<Reading>) {
    rs != [] && rs[|rs| - 1].deflected &&
    if |rs| > 1 && rs[|rs| - 2].deflected then DeflectedFreely(rs[..|rs| - 1]) else !rs[|rs| - 1].keyboard.Rendering()
  }

  /** The guest sees an axis exactly if its movement began off the keyboard and the keyboard is not closing. */
  lemma {:induction false} GuestSeesFreeMoves(rs: seq<Reading>)
    ensures var a := RunAxis(rs);
            && (a.owner.Neutral? <==> rs == [] || !rs[|rs| - 1].deflected)
            && (a.owner.Gameplay? <==> DeflectedFreely(rs))
            && (a.guest <==> DeflectedFreely(rs) && (rs[|rs| - 1].keyboard.Rendering() ==> rs[|rs| - 1].keyboard.visible))
  {
    if rs != [] {
      GuestSeesFreeMoves(rs[..|rs| - 1]);
    }
  }

  // ----- The program -----

  class Router {
    const options: Options
    const last: array<bool>
    const owner: array<Owner>
    const guest: array<bool>
    var keyboard: Keyboard
    var toggles: nat

    ghost predicate Ok()
      reads this
    {
      last.Length == 28 && owner.Length == 28 && guest.Length == 28 && last != guest
    }

    /** The tables hold the state s. */
    ghost predicate Represents(s: State)
      reads this, last, owner, guest
    {
      && Ok() && Valid(s) && s.keyboard == keyboard && s.toggles == toggles
      && forall i :: 0 <= i < 28 ==> s.buttons[i] == Button(last[i], owner[i], guest[i])
    }

    constructor (options: Options)
      ensures Ok() && fresh(last) && fresh(owner) && fresh(guest) && Represents(START)
    {
      this.options := options;
      last, guest := new bool[28](_ => false), new bool[28](_ => false);
      owner := new Owner[28](_ => Neutral);
      keyboard, toggles := Keyboard(false, false), 0;
    }

    /** route_libretro_joy_button; setting guest[i] stands for telling the guest. */
    method RouteButton(i: nat, state: bool, hides: bool)
      requires Ok() && i < 28
      modifies owner, guest, this`keyboard
      ensures Ok() && last[..] == old(last[..])
      ensures keyboard == AfterKey(old(keyboard), old(Button(last[i], owner[i], guest[i])), state, hides)
      ensures Button(last[i], owner[i], guest[i]) == Route(old(keyboard), old(Button(last[i], owner[i], guest[i])), state)
      ensures forall j :: 0 <= j < 28 && j != i ==> owner[j] == old(owner[j]) && guest[j] == old(guest[j])
    {
      if owner[i].Neutral? && state {
        owner[i] := if keyboard.Rendering() then Osk else Gameplay;
      }
      if owner[i].Gameplay? {
        guest[i] := state;
        if !state {
          owner[i] := Neutral;
        }
        return;
      }
      if owner[i].Osk? && !keyboard.visible {
        if !state {
          owner[i] := Neutral;
        }
        return;
      }
      if owner[i].Osk? {
        if hides {
          keyboard := keyboard.Hidden();
        }
      } else {
        guest[i] := state;
      }
      if !state {
        owner[i] := Neutral;
      }
    }

    /** The body of the button loop of poll_input. */
    method PollButton(i: nat, state: bool, hides: bool, ghost s: State)
      requires Represents(s) && i < 28
      modifies this, last, owner, guest
      ensures Represents(StepButton(options, s, i, state, hides))
    {
      hide IsToggle, HidesKeyboard;
      var was := last[i];
      if state != was {
        last[i] := state;
      }
      if IsToggle(options, i) {
        if state && !was {
          toggles := toggles + 1;
        }
        return;
      }
      if HidesKeyboard(options, i) && keyboard.visible {
        if owner[i].Neutral? && state {
          owner[i] := Osk;
        }
        if owner[i].Osk? {
          if state && !was {
            keyboard := keyboard.Hidden();
          }
          if !state {
            owner[i] := Neutral;
          }
          return;
        }
      }
      RouteButton(i, state, hides);
    }

    /** The button loops of poll_input over both ports. */
    method PollInput(p: Poll, ghost s: State)
      requires Represents(s)
      modifies this, last, owner, guest
      ensures Represents(PollFirst(options, s.(keyboard := p.keyboard), p, 28))
    {
      hide StepButton;
      keyboard := p.keyboard;
      ghost var s0 := s.(keyboard := p.keyboard);
      for i := 0 to 28
        invariant Represents(PollFirst(options, s0, p, i))
      {
        if Connected(p, i) {
          PollButton(i, p.pressed[i], p.hides[i], PollFirst(options, s0, p, i));
        }
      }
    }
  }
}
