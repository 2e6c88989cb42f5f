/** The sort dropdown (src/components/SortDropdown.tsx): the option list, the lookup
    of the current option, and the open/focused-index state machine driven by keys
    and clicks. The `value` prop is the raw string the component receives, so that a
    value outside the option list exercises the lookup's fallback. */
module SortDropdown {
  import opened Wrappers
  import opened Products
  import opened Keyboard

  /** An option: its value and the label shown for it. */
  datatype Entry = Entry(value: SortOption, caption: string)

  /** The options, in display order. */
  const SortOptions: seq<Entry> := [
    Entry(Default, "Default"),
    Entry(PriceAsc, "Price: Low to High"),
    Entry(PriceDesc, "Price: High to Low")
  ]

  /** `sortOptions.findIndex((opt) => opt.value === value)`: the first matching
      position, or -1. */
  function FindIndex(value: string): (i: int)
    ensures -1 <= i < |SortOptions|
    ensures i >= 0 ==> SortOptions[i].value.Name() == value
    ensures i == -1 <==> forall k :: 0 <= k < |SortOptions| ==> SortOptions[k].value.Name() != value
  {
    FindFrom(value, 0)
  }

  function FindFrom(value: string, start: nat): (i: int)
    requires start <= |SortOptions|
    ensures i == -1 || start <= i < |SortOptions|
    ensures i >= 0 ==> SortOptions[i].value.Name() == value
    ensures i == -1 <==> forall k :: start <= k < |SortOptions| ==> SortOptions[k].value.Name() != value
    decreases |SortOptions| - start
  {
    if start == |SortOptions| then -1
    else if SortOptions[start].value.Name() == value then start
    else FindFrom(value, start + 1)
  }

  /** `currentOption`: the option whose value is `value`, falling back to the first
      option, "Default", when there is none. */
  function CurrentOption(value: string): (e: Entry)
    ensures e in SortOptions
    ensures (exists k :: 0 <= k < |SortOptions| && SortOptions[k].value.Name() == value) ==> e.value.Name() == value
    ensures (forall k :: 0 <= k < |SortOptions| ==> SortOptions[k].value.Name() != value) ==> e == SortOptions[0]
  {
    var i := FindIndex(value);
    if i >= 0 then SortOptions[i] else SortOptions[0]
  }

  /** Every sort option is listed under its own name, so a well-typed `value` never
      hits the fallback and opens the menu focused on its own entry. */
  lemma EveryOptionIsListed(o: SortOption)
    ensures 0 <= FindIndex(o.Name()) && SortOptions[FindIndex(o.Name())].value == o
    ensures CurrentOption(o.Name()).value == o
  {
    assert SortOptions[0].value.Name() == "default";
    assert SortOptions[1].value.Name() == "price-asc";
    assert SortOptions[2].value.Name() == "price-desc";
  }

  /** Whether the menu is open, and the highlighted option (-1 for none). */
  datatype State = State(isOpen: bool, focusedIndex: int)

  predicate Valid(s: State) {
    -1 <= s.focusedIndex < |SortOptions|
  }

  /** The mounted state, and the state every closing transition returns to. */
  const Closed: State := State(false, -1)

  /** The inputs the component reacts to. */
  datatype Event =
    | KeyDown(key: Key)
    | ButtonClick
    | OptionClick(option: SortOption)
    | OptionHover(index: nat)
    | ClickOutside

  /** Hover events name a listed option. The options exist only while the menu is
      open, so a click or hover on an option of a closed menu changes nothing. */
  predicate EventValid(e: Event) {
    e.OptionHover? ==> e.index < |SortOptions|
  }

  /** The next state and the value passed to `onChange`, if any. */
  datatype Reaction = Reaction(next: State, emitted: Option<SortOption>)

  /** `handleKeyDown`. */
  function HandleKeyDown(s: State, value: string, key: Key): (r: Reaction)
    requires Valid(s)
    ensures Valid(r.next)
    ensures !s.isOpen && (key.Enter? || key.Space? || key.ArrowDown?) ==>
      r == Reaction(State(true, FindIndex(value)), None)
    ensures !s.isOpen && !(key.Enter? || key.Space? || key.ArrowDown?) ==> r == Reaction(s, None)
    ensures s.isOpen && key.ArrowDown? ==> r == Reaction(State(true, (s.focusedIndex + 1) % 3), None)
    ensures s.isOpen && key.ArrowUp? ==> r == Reaction(State(true, (s.focusedIndex + 2) % 3), None)
    ensures s.isOpen && (key.Enter? || key.Space?) && s.focusedIndex >= 0 ==>
      r == Reaction(Closed, Some(SortOptions[s.focusedIndex].value))
    ensures s.isOpen && (key.Enter? || key.Space?) && s.focusedIndex < 0 ==> r == Reaction(s, None)
    ensures s.isOpen && (key.Escape? || key.Tab?) ==> r == Reaction(Closed, None)
    ensures s.isOpen && (key.Home? || key.End? || key.ArrowLeft? || key.ArrowRight? || key.Other?) ==>
      r == Reaction(s, None)
  {
    var n := |SortOptions|;
    if !s.isOpen then
      if key.Enter? || key.Space? || key.ArrowDown? then Reaction(State(true, FindIndex(value)), None)
      else Reaction(s, None)
    else
      match key
      case Escape => Reaction(Closed, None)
      case ArrowDown => Reaction(s.(focusedIndex := JsRem(s.focusedIndex + 1, n)), None)
      case ArrowUp => Reaction(s.(focusedIndex := JsRem(s.focusedIndex - 1 + n, n)), None)
      case Enter => Confirm(s)
      case Space => Confirm(s)
      case Tab => Reaction(Closed, None)
      case _ => Reaction(s, None)
  }

  /** Enter or Space while open: choose the highlighted option, if there is one. */
  function Confirm(s: State): (r: Reaction)
    requires Valid(s)
  {
    if s.focusedIndex >= 0 then Reaction(Closed, Some(SortOptions[s.focusedIndex].value))
    else Reaction(s, None)
  }

  /** Every event: keys, the toggle button, clicking or hovering an option, and a
      click outside the component. */
  function Step(s: State, value: string, e: Event): (r: Reaction)
    requires Valid(s) && EventValid(e)
    ensures Valid(r.next)
    ensures e.OptionClick? && s.isOpen ==> r == Reaction(Closed, Some(e.option))
    ensures e.OptionClick? && !s.isOpen ==> r == Reaction(s, None)
    ensures e.ClickOutside? ==> r == Reaction(Closed, None)
    ensures e.ButtonClick? ==> r == Reaction(s.(isOpen := !s.isOpen), None)
    ensures e.OptionHover? ==> r.emitted == None && r.next.isOpen == s.isOpen
    ensures e.OptionHover? && s.isOpen ==> r.next.focusedIndex == e.index
    ensures e.OptionHover? && !s.isOpen ==> r.next == s
    ensures r.emitted.Some? ==> e.OptionClick? || e == KeyDown(Enter) || e == KeyDown(Space)
    ensures r.emitted.Some? ==> r.next == Closed
  {
    match e
    case KeyDown(key) => HandleKeyDown(s, value, key)
    case ButtonClick => Reaction(s.(isOpen := !s.isOpen), None)
    case OptionClick(option) => if s.isOpen then Reaction(Closed, Some(option)) else Reaction(s, None)
    case OptionHover(index) => Reaction(if s.isOpen then s.(focusedIndex := index) else s, None)
    case ClickOutside => Reaction(Closed, None)
  }

  /** Moving down then up returns to the highlighted option, and so does up then down. */
  lemma DownUpInverse(s: State, value: string)
    requires Valid(s) && s.isOpen && s.focusedIndex >= 0
    ensures HandleKeyDown(HandleKeyDown(s, value, ArrowDown).next, value, ArrowUp).next == s
    ensures HandleKeyDown(HandleKeyDown(s, value, ArrowUp).next, value, ArrowDown).next == s
  {
  }

  /** Opening the menu with Enter and confirming at once keeps the current sort. */
  lemma OpenThenConfirmKeepsValue(s: State, o: SortOption)
    requires Valid(s) && !s.isOpen
    ensures var shown := HandleKeyDown(s, o.Name(), Enter).next;
      HandleKeyDown(shown, o.Name(), Enter) == Reaction(Closed, Some(o))
  {
    EveryOptionIsListed(o);
  }

  /** The state after a run of events; the highlighted index always stays within
      -1 and the last option. */
  function Run(s: State, value: string, events: seq<Event>): (r: State)
    requires Valid(s)
    requires forall i :: 0 <= i < |events| ==> EventValid(events[i])
    ensures Valid(r)
    decreases |events|
  {
    if events == [] then s else Run(Step(s, value, events[0]).next, value, events[1..])
  }
}
