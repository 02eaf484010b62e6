/** The interactive menu: a cursor over a fixed list of choices, moved by
    key presses, and the choice under the cursor taken on "enter". */
module Screen {

  datatype Tui = Tui(cursor: int, choices: seq<string>, selected: string)

  /** A message the event loop delivers: a key press by its name, or
      anything else (window resizes, ticks). */
  datatype Msg = Key(name: string) | OtherMsg

  /** The state after a message and whether the program is told to quit;
      `IndexPanic` is a selection with the cursor outside the list. */
  datatype Step = Next(model: Tui, quit: bool) | IndexPanic

  /** The starting state: cursor on the first of five choices, nothing selected. */
  function InitialModel(): (m: Tui)
    ensures m.cursor == 0 && |m.choices| == 5 && m.selected == ""
  {
    Tui(0, ["\U{1F50C} Connect to VPN", "\U{274C} Disconnect VPN", "\U{1F4CA} VPN Status",
            "\U{1F9FE} View Logs", "\U{1F6AA} Exit"], "")
  }

  ghost predicate InRange(m: Tui)
  {
    0 <= m.cursor < |m.choices|
  }

  /** One message. */
  function Update(m: Tui, msg: Msg): (r: Step)
    ensures msg.Key? && (msg.name == "ctrl+c" || msg.name == "q") ==> r == Next(m, true)
    ensures msg.Key? && (msg.name == "up" || msg.name == "k") ==>
      r == Next(m.(cursor := if m.cursor > 0 then m.cursor - 1 else m.cursor), false)
    ensures msg.Key? && (msg.name == "down" || msg.name == "j") ==>
      r == Next(m.(cursor := if m.cursor < |m.choices| - 1 then m.cursor + 1 else m.cursor), false)
    ensures msg.Key? && msg.name == "enter" && InRange(m) ==> r == Next(m.(selected := m.choices[m.cursor]), true)
    ensures msg.Key? && msg.name == "enter" && !InRange(m) ==> r == IndexPanic
    ensures (msg.OtherMsg? || msg.name !in {"ctrl+c", "q", "up", "k", "down", "j", "enter"}) ==> r == Next(m, false)
  {
    match msg
    case OtherMsg => Next(m, false)
    case Key(name) =>
      if name == "ctrl+c" || name == "q" then Next(m, true)
      else if name == "up" || name == "k" then
        Next(if m.cursor > 0 then m.(cursor := m.cursor - 1) else m, false)
      else if name == "down" || name == "j" then
        Next(if m.cursor < |m.choices| - 1 then m.(cursor := m.cursor + 1) else m, false)
      else if name == "enter" then
        if 0 <= m.cursor < |m.choices| then Next(m.(selected := m.choices[m.cursor]), true)
        else IndexPanic
      else Next(m, false)
  }

  /** Every message keeps the cursor on a choice and the choices as they are. */
  lemma UpdateKeepsRange(m: Tui, msg: Msg)
    requires InRange(m)
    ensures Update(m, msg).Next?
    ensures InRange(Update(m, msg).model) && Update(m, msg).model.choices == m.choices
  {
  }

  /** The event loop: messages are handled in order until one asks to quit. */
  function Run(m: Tui, msgs: seq<Msg>): (r: Step)
    decreases |msgs|
  {
    if |msgs| == 0 then Next(m, false)
    else
      match Update(m, msgs[0])
      case IndexPanic => IndexPanic
      case Next(m', quit) => if quit then Next(m', true) else Run(m', msgs[1..])
  }

  /** From the initial state, no sequence of messages makes the program
      index outside its choices, and the cursor always names a choice. */
  lemma {:induction false} RunKeepsRange(m: Tui, msgs: seq<Msg>)
    requires InRange(m)
    ensures Run(m, msgs).Next?
    ensures InRange(Run(m, msgs).model) && Run(m, msgs).model.choices == m.choices
    decreases |msgs|
  {
    if |msgs| > 0 {
      UpdateKeepsRange(m, msgs[0]);
      var step := Update(m, msgs[0]);
      if !step.quit {
        RunKeepsRange(step.model, msgs[1..]);
      }
    }
  }

  lemma InitialRuns(msgs: seq<Msg>)
    ensures Run(InitialModel(), msgs).Next?
    ensures 0 <= Run(InitialModel(), msgs).model.cursor < 5
  {
    RunKeepsRange(InitialModel(), msgs);
  }

  /** Whatever is selected after any run is one of the choices, or nothing. */
  lemma {:induction false} SelectionIsAChoice(m: Tui, msgs: seq<Msg>)
    requires InRange(m) && (m.selected == "" || m.selected in m.choices)
    ensures Run(m, msgs).Next?
    ensures var s := Run(m, msgs).model.selected; s == "" || s in m.choices
    decreases |msgs|
  {
    RunKeepsRange(m, msgs);
    if |msgs| > 0 {
      var step := Update(m, msgs[0]);
      UpdateKeepsRange(m, msgs[0]);
      if !step.quit {
        SelectionIsAChoice(step.model, msgs[1..]);
      }
    }
  }

  /** Without the range invariant a selection does panic: the index check
      is what the invariant buys. */
  lemma EnterOutOfRangePanics()
    ensures Update(Tui(5, InitialModel().choices, ""), Key("enter")) == IndexPanic
  {
  }
}
