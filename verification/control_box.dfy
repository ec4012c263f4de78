/**
 The title-bar controller itself: four boolean attached properties on a
 window (help button, maximize button, minimize button, system menu), and the
 change handler that pushes them into the window's native style words —
 at once when the native window exists, or deferred to the window's
 source-initialized event when it does not yet.

 A window is modelled by its four flags, whether its native handle exists,
 how many source-initialized handlers are subscribed, and its two style
 words. Every change made before the handle exists subscribes one more
 handler; when the event is raised every subscribed handler runs once and
 unsubscribes itself.

 Every operation that writes the extended style word takes a `Variant`:
 `AsWritten` runs the help-off branch as the code is written, masking with
 0x401; `Corrected` runs it the way it is meant to, masking with ~0x400.
 Properties that hold of the code are proved for both; the ones that only
 hold once the clear is corrected are proved for `Corrected`, with a
 counterexample for `AsWritten` beside them.
 */
module ControlBox {
  import opened Words
  import opened Win32Styles

  datatype Flag = HasHelpButton | HasMaximizeButton | HasMinimizeButton | HasSystemMenu

  /** The values of the four attached properties on one object. */
  datatype Flags = Flags(hasHelpButton: bool, hasMaximizeButton: bool, hasMinimizeButton: bool, hasSystemMenu: bool) {

    /** The `GetHas…` accessor of one property. */
    function Get(flag: Flag): bool {
      match flag
      case HasHelpButton => hasHelpButton
      case HasMaximizeButton => hasMaximizeButton
      case HasMinimizeButton => hasMinimizeButton
      case HasSystemMenu => hasSystemMenu
    }

    /** The stored values after the `SetHas…` accessor of one property:
        that property reads back the new value, the other three are untouched. */
    function With(flag: Flag, value: bool): (r: Flags)
      ensures r.Get(flag) == value
      ensures forall other :: other != flag ==> r.Get(other) == Get(other)
    {
      match flag
      case HasHelpButton => this.(hasHelpButton := value)
      case HasMaximizeButton => this.(hasMaximizeButton := value)
      case HasMinimizeButton => this.(hasMinimizeButton := value)
      case HasSystemMenu => this.(hasSystemMenu := value)
    }
  }

  /** The registered defaults: no help button, maximize and minimize buttons
      and the system menu shown. */
  const DefaultFlags: Flags := Flags(false, true, true, true)

  /** Which help-bit clear the extended-style update performs. */
  datatype Variant = AsWritten | Corrected

  /** One window as the controller sees it. `pending` counts the
      source-initialized handlers currently subscribed. */
  datatype Window = Window(flags: Flags, handleCreated: bool, pending: nat, words: NativeWords)

  /** The object whose property changed: a window, or any other object that
      carries the attached properties but has no title bar. */
  datatype Target = WindowTarget(window: Window) | OtherTarget(otherFlags: Flags) {
    function GetFlags(): Flags {
      match this
      case WindowTarget(w) => w.flags
      case OtherTarget(f) => f
    }

    function WithFlags(f: Flags): (r: Target)
      ensures r.GetFlags() == f
      ensures r.WindowTarget? <==> WindowTarget?
      ensures WindowTarget? ==> r.window == window.(flags := f)
    {
      match this
      case WindowTarget(w) => WindowTarget(w.(flags := f))
      case OtherTarget(_) => OtherTarget(f)
    }
  }

  /** The style word shows exactly the three buttons the flags ask for. */
  predicate StyleSynced(words: NativeWords, flags: Flags) {
    && (MaximizeBox <= words.style <==> flags.hasMaximizeButton)
    && (MinimizeBox <= words.style <==> flags.hasMinimizeButton)
    && (SystemMenu <= words.style <==> flags.hasSystemMenu)
  }

  /** The native words show exactly the decorations the flags ask for. */
  predicate Synced(words: NativeWords, flags: Flags) {
    StyleSynced(words, flags) && (ContextHelp <= words.exStyle <==> flags.hasHelpButton)
  }

  /** `after` is the style word `before` updated from the flags: the three
      owned bits follow the flags and every other bit is kept. */
  predicate ShowsStyleUpdate(before: Word, after: Word, flags: Flags) {
    && (MaximizeBox <= after <==> flags.hasMaximizeButton)
    && (MinimizeBox <= after <==> flags.hasMinimizeButton)
    && (SystemMenu <= after <==> flags.hasSystemMenu)
    && after - StyleMask == before - StyleMask
  }

  /** `after` is the extended style word `before` updated from the help flag.
      Setting the bit, and the corrected clear, keep every other bit. The
      clear as written keeps bits 0 and 10 as they were and drops the rest. */
  predicate ShowsHelpUpdate(v: Variant, before: Word, after: Word, help: bool) {
    if help || v == Corrected then
      && (ContextHelp <= after <==> help)
      && after - ContextHelp == before - ContextHelp
    else
      && after <= {0, 10}
      && (0 in after <==> 0 in before)
      && (10 in after <==> 10 in before)
  }

  /** The extended word an update describes, as a set expression: setting
      adds bit 10, the corrected clear removes it, the clear as written
      intersects with {0, 10}. */
  lemma ShowsHelpUpdateResult(v: Variant, before: Word, after: Word, help: bool)
    requires ShowsHelpUpdate(v, before, after, help)
    ensures help ==> after == before + {10}
    ensures !help && v == Corrected ==> after == before - {10}
    ensures !help && v == AsWritten ==> after == before * {0, 10}
  {
    if help || v == Corrected {
      forall i | i in after
        ensures i in before || i == 10
      {
        if i != 10 {
          assert i in after - ContextHelp;
        }
      }
      forall i | i in before && i != 10
        ensures i in after
      {
        assert i in before - ContextHelp;
      }
    } else {
      forall i | i in before * {0, 10}
        ensures i in after
      {
        assert i == 0 || i == 10;
      }
    }
  }

  predicate ShowsUpdate(v: Variant, before: NativeWords, after: NativeWords, flags: Flags) {
    && ShowsStyleUpdate(before.style, after.style, flags)
    && ShowsHelpUpdate(v, before.exStyle, after.exStyle, flags.hasHelpButton)
  }

  /** Reads the style word, sets or clears the three owned bits from the
      flags, writes it back. The extended style word is not touched. */
  function UpdateStyle(words: NativeWords, flags: Flags): (r: NativeWords)
    ensures ShowsStyleUpdate(words.style, r.style, flags)
    ensures r.exStyle == words.exStyle
  {
    var style := words.GetWindowLong(Style);
    var updated := ComputeStyle(style, flags.hasMaximizeButton, flags.hasMinimizeButton, flags.hasSystemMenu);
    words.SetWindowLong(Style, updated)
  }

  /** Reads the extended style word, sets or clears the help bit from the
      flag, writes it back. The style word is not touched. */
  function UpdateExtendedStyle(v: Variant, words: NativeWords, flags: Flags): (r: NativeWords)
    ensures ShowsHelpUpdate(v, words.exStyle, r.exStyle, flags.hasHelpButton)
    ensures r.style == words.style
  {
    var exStyle := words.GetWindowLong(ExtStyle);
    var updated := match v
      case AsWritten => ComputeExtendedStyleAsWritten(exStyle, flags.hasHelpButton)
      case Corrected => ComputeExtendedStyle(exStyle, flags.hasHelpButton);
    words.SetWindowLong(ExtStyle, updated)
  }

  /** Both updates, in the order the handlers run them. Corrected, they make
      the words show all four flags. */
  function ApplyUpdates(v: Variant, words: NativeWords, flags: Flags): (r: NativeWords)
    ensures ShowsUpdate(v, words, r, flags)
    ensures StyleSynced(r, flags)
    ensures v == Corrected || flags.hasHelpButton ==> Synced(r, flags)
  {
    UpdateExtendedStyle(v, UpdateStyle(words, flags), flags)
  }

  /** The description of an update pins its result down: any words that
      show the update are the words the update computes. */
  lemma ShowsUpdateIsDetermined(v: Variant, before: NativeWords, after: NativeWords, flags: Flags)
    requires ShowsUpdate(v, before, after, flags)
    ensures after == ApplyUpdates(v, before, flags)
  {
    var r := ApplyUpdates(v, before, flags);
    ComputeStyleIsDetermined(before.style, flags.hasMaximizeButton, flags.hasMinimizeButton,
                             flags.hasSystemMenu, after.style);
    ComputeStyleIsDetermined(before.style, flags.hasMaximizeButton, flags.hasMinimizeButton,
                             flags.hasSystemMenu, r.style);
    if flags.hasHelpButton || v == Corrected {
      ComputeExtendedStyleIsDetermined(before.exStyle, flags.hasHelpButton, after.exStyle);
      ComputeExtendedStyleIsDetermined(before.exStyle, flags.hasHelpButton, r.exStyle);
    } else {
      forall i | i in after.exStyle
        ensures i in r.exStyle
      {
        assert i == 0 || i == 10;
      }
      forall i | i in r.exStyle
        ensures i in after.exStyle
      {
        assert i == 0 || i == 10;
      }
    }
  }

  /** A second run of both updates with the same flags changes nothing, as
      written and corrected. */
  lemma ApplyUpdatesIdempotent(v: Variant, words: NativeWords, flags: Flags)
    ensures ApplyUpdates(v, ApplyUpdates(v, words, flags), flags) == ApplyUpdates(v, words, flags)
  {
    var once := ApplyUpdates(v, words, flags);
    var twice := ApplyUpdates(v, once, flags);
    assert ShowsUpdate(v, words, twice, flags);
    ShowsUpdateIsDetermined(v, words, twice, flags);
  }

  /** The style word ends up as if only the last update had run, as written
      and corrected. */
  lemma ApplyUpdatesStyleLastWriteWins(v: Variant, words: NativeWords, f: Flags, g: Flags)
    ensures ApplyUpdates(v, ApplyUpdates(v, words, f), g).style == ApplyUpdates(v, words, g).style
  {
    var twice := ApplyUpdates(v, ApplyUpdates(v, words, f), g);
    ComputeStyleIsDetermined(words.style, g.hasMaximizeButton, g.hasMinimizeButton, g.hasSystemMenu, twice.style);
    ComputeStyleIsDetermined(words.style, g.hasMaximizeButton, g.hasMinimizeButton, g.hasSystemMenu,
                             ApplyUpdates(v, words, g).style);
  }

  /** Corrected, updating with flags f and then with flags g leaves the same
      words as updating with g alone. */
  lemma ApplyUpdatesLastWriteWins(words: NativeWords, f: Flags, g: Flags)
    ensures ApplyUpdates(Corrected, ApplyUpdates(Corrected, words, f), g) == ApplyUpdates(Corrected, words, g)
  {
    var twice := ApplyUpdates(Corrected, ApplyUpdates(Corrected, words, f), g);
    assert ShowsUpdate(Corrected, words, twice, g);
    ShowsUpdateIsDetermined(Corrected, words, twice, g);
  }

  /** As written, the last update does not win: help on then off leaves the
      help bit set where an update with help off alone leaves it clear, and
      help off then on loses bit 0x100 that an update with help on alone
      keeps. */
  lemma AsWrittenLastWriteDoesNotWin()
    ensures var helpOn := DefaultFlags.(hasHelpButton := true);
      && ApplyUpdates(AsWritten, ApplyUpdates(AsWritten, NativeWords({}, {}), helpOn), DefaultFlags).exStyle == {10}
      && ApplyUpdates(AsWritten, NativeWords({}, {}), DefaultFlags).exStyle == {}
      && ApplyUpdates(AsWritten, ApplyUpdates(AsWritten, NativeWords({}, {8}), DefaultFlags), helpOn).exStyle == {10}
      && ApplyUpdates(AsWritten, NativeWords({}, {8}), helpOn).exStyle == {8, 10}
  {
    var helpOn := DefaultFlags.(hasHelpButton := true);
    var a := ApplyUpdates(AsWritten, ApplyUpdates(AsWritten, NativeWords({}, {}), helpOn), DefaultFlags).exStyle;
    assert 10 in a;
    assert a == {10};
    var b := ApplyUpdates(AsWritten, ApplyUpdates(AsWritten, NativeWords({}, {8}), DefaultFlags), helpOn).exStyle;
    assert 10 in b;
    assert b == {10};
    var c := ApplyUpdates(AsWritten, NativeWords({}, {8}), helpOn).exStyle;
    assert 8 in c && 10 in c;
    assert c == {8, 10};
  }

  /** Corrected, words that already show the flags are left as they are. */
  lemma ApplyUpdatesKeepsSyncedWords(words: NativeWords, flags: Flags)
    requires Synced(words, flags)
    ensures ApplyUpdates(Corrected, words, flags) == words
  {
    assert ShowsUpdate(Corrected, words, words, flags);
    ShowsUpdateIsDetermined(Corrected, words, words, flags);
  }

  /** As written, the words an update leaves alone are exactly those that
      show the three buttons, carry the help bit when it is wanted, and —
      when it is not — have no bit other than 0 and 10. */
  lemma AsWrittenFixedPoints(words: NativeWords, flags: Flags)
    ensures ApplyUpdates(AsWritten, words, flags) == words
        <==> && StyleSynced(words, flags)
             && (flags.hasHelpButton ==> ContextHelp <= words.exStyle)
             && (!flags.hasHelpButton ==> words.exStyle <= {0, 10})
  {
    if && StyleSynced(words, flags)
       && (flags.hasHelpButton ==> ContextHelp <= words.exStyle)
       && (!flags.hasHelpButton ==> words.exStyle <= {0, 10}) {
      assert ShowsUpdate(AsWritten, words, words, flags);
      ShowsUpdateIsDetermined(AsWritten, words, words, flags);
    }
  }

  /** The property-changed callback. Another kind of object is ignored; a
      window without a native handle gets one more source-initialized
      handler and no word is written; a window with a handle is updated at
      once. */
  function OnControlBoxChanged(v: Variant, t: Target): (r: Target)
    ensures t.OtherTarget? ==> r == t
    ensures t.WindowTarget? ==>
              (&& r.WindowTarget?
               && r.window.flags == t.window.flags
               && r.window.handleCreated == t.window.handleCreated)
    ensures t.WindowTarget? && !t.window.handleCreated ==>
              r.window.words == t.window.words && r.window.pending == t.window.pending + 1
    ensures t.WindowTarget? && t.window.handleCreated ==>
              (&& r.window.pending == t.window.pending
               && ShowsUpdate(v, t.window.words, r.window.words, t.window.flags))
  {
    match t
    case OtherTarget(_) => t
    case WindowTarget(w) =>
      if !w.handleCreated then WindowTarget(w.(pending := w.pending + 1))
      else WindowTarget(w.(words := ApplyUpdates(v, w.words, w.flags)))
  }

  /** One subscribed handler running: both updates from the current flags,
      then one subscription fewer. The event is raised only once the handle
      exists, and only subscribed handlers run. */
  function OnWindowSourceInitialized(v: Variant, w: Window): (r: Window)
    requires w.handleCreated && w.pending > 0
    ensures r.pending == w.pending - 1
    ensures r.flags == w.flags && r.handleCreated
    ensures ShowsUpdate(v, w.words, r.words, w.flags)
  {
    var updated := w.(words := ApplyUpdates(v, w.words, w.flags));
    updated.(pending := w.pending - 1)
  }

  /** `k` of the subscribed handlers running one after the other: for k > 0
      the words show one update from the current flags. */
  function FireHandlers(v: Variant, w: Window, k: nat): (r: Window)
    requires w.handleCreated && k <= w.pending
    ensures r.pending == w.pending - k
    ensures r.flags == w.flags && r.handleCreated
    ensures k > 0 ==> ShowsUpdate(v, w.words, r.words, w.flags)
    ensures k == 0 ==> r.words == w.words
    decreases k
  {
    if k == 0 then w else FireHandlers(v, OnWindowSourceInitialized(v, w), k - 1)
  }

  /** Any positive number of pending handlers leaves the same words as a
      single one would, as written and corrected. */
  lemma FiringManyEqualsFiringOnce(v: Variant, w: Window, k: nat)
    requires w.handleCreated && 1 <= k <= w.pending
    ensures FireHandlers(v, w, k).words == OnWindowSourceInitialized(v, w).words
    ensures FireHandlers(v, w, k).words == ApplyUpdates(v, w.words, w.flags)
  {
    ShowsUpdateIsDetermined(v, w.words, FireHandlers(v, w, k).words, w.flags);
  }

  /** The native window is created and its source-initialized event is
      raised: every subscribed handler runs and unsubscribes itself. */
  function SourceInitialized(v: Variant, w: Window): (r: Window)
    requires !w.handleCreated
    ensures r.handleCreated && r.pending == 0 && r.flags == w.flags
    ensures w.pending == 0 ==> r.words == w.words
    ensures w.pending > 0 ==> ShowsUpdate(v, w.words, r.words, w.flags)
  {
    var created := w.(handleCreated := true);
    FireHandlers(v, created, created.pending)
  }

  /** A `SetHas…` accessor. The change callback runs only when the
      effective value of the property changes; setting a property to the
      value it already has does nothing. */
  function SetFlag(v: Variant, t: Target, flag: Flag, value: bool): (r: Target)
    ensures r.GetFlags() == t.GetFlags().With(flag, value)
    ensures r.WindowTarget? <==> t.WindowTarget?
    ensures t.GetFlags().Get(flag) == value ==> r == t
    ensures t.GetFlags().Get(flag) != value ==> r == OnControlBoxChanged(v, t.WithFlags(t.GetFlags().With(flag, value)))
  {
    var flags := t.GetFlags();
    if flags.Get(flag) == value then
      assert flags.With(flag, value) == flags by {
        FlagsAreDetermined(flags.With(flag, value), flags);
      }
      t
    else OnControlBoxChanged(v, t.WithFlags(flags.With(flag, value)))
  }

  /** Two flag records that read the same for every property are equal. */
  lemma FlagsAreDetermined(f: Flags, g: Flags)
    requires forall flag :: f.Get(flag) == g.Get(flag)
    ensures f == g
  {
    assert f.Get(HasHelpButton) == g.Get(HasHelpButton);
    assert f.Get(HasMaximizeButton) == g.Get(HasMaximizeButton);
    assert f.Get(HasMinimizeButton) == g.Get(HasMinimizeButton);
    assert f.Get(HasSystemMenu) == g.Get(HasSystemMenu);
  }

  /** What can happen to a window: a property is set, or its native window
      is created. */
  datatype Event = Set(flag: Flag, value: bool) | SourceReady

  /** A freshly constructed window: every property at its registered
      default, no handle, no handler, and the style words its native window
      will be created with. */
  function Fresh(initial: NativeWords): (w: Window)
    ensures !w.flags.Get(HasHelpButton)
    ensures w.flags.Get(HasMaximizeButton) && w.flags.Get(HasMinimizeButton) && w.flags.Get(HasSystemMenu)
    ensures !w.handleCreated && w.pending == 0 && w.words == initial
  {
    Window(DefaultFlags, false, 0, initial)
  }

  /** One event. Setting a property changes that property only and never
      creates the native window; the window is created once, after which
      no handler is pending. */
  function Step(v: Variant, w: Window, e: Event): (r: Window)
    ensures e.Set? ==> r.flags == w.flags.With(e.flag, e.value) && r.handleCreated == w.handleCreated
    ensures e.SourceReady? ==> r.flags == w.flags && r.handleCreated
    ensures e.SourceReady? && !w.handleCreated ==> r.pending == 0
  {
    match e
    case Set(flag, value) => SetFlag(v, WindowTarget(w), flag, value).window
    case SourceReady => if w.handleCreated then w else SourceInitialized(v, w)
  }

  /** The events in order. The native window exists afterwards exactly when
      it existed before or one of the events created it. */
  function Run(v: Variant, w: Window, events: seq<Event>): (r: Window)
    ensures r.handleCreated <==> w.handleCreated || SourceReady in events
    decreases |events|
  {
    if |events| == 0 then w
    else
      var last := events[|events| - 1];
      assert events == events[..|events| - 1] + [last];
      Step(v, Run(v, w, events[..|events| - 1]), last)
  }

  /** A run ending in `e` is the run before it followed by one step. */
  lemma RunSnoc(v: Variant, w: Window, events: seq<Event>, e: Event)
    ensures Run(v, w, events + [e]) == Step(v, Run(v, w, events), e)
  {
    assert (events + [e])[..|events|] == events;
  }

  /** A run of two events is two steps. */
  lemma RunTwo(v: Variant, w: Window, e1: Event, e2: Event)
    ensures Run(v, w, [e1, e2]) == Step(v, Step(v, w, e1), e2)
  {
    RunSnoc(v, w, [], e1);
    assert [] + [e1] == [e1];
    RunSnoc(v, w, [e1], e2);
    assert [e1] + [e2] == [e1, e2];
  }

  /** A run of three events is three steps. */
  lemma RunThree(v: Variant, w: Window, e1: Event, e2: Event, e3: Event)
    ensures Run(v, w, [e1, e2, e3]) == Step(v, Step(v, Step(v, w, e1), e2), e3)
  {
    RunTwo(v, w, e1, e2);
    RunSnoc(v, w, [e1, e2], e3);
    assert [e1, e2] + [e3] == [e1, e2, e3];
  }

  /** The words a created window can carry once some property has changed,
      for the words `initial` it was created with. Corrected, they are the
      initial words updated once from the current flags. As written, the
      style word is, bit 0 of the extended word is never touched, the help
      bit is set when wanted, and the other extended bits are either all
      intact (no clear has run yet) or all gone; with help off, only bits 0
      and 10 can be left. */
  predicate UpdatedWords(v: Variant, initial: NativeWords, words: NativeWords, flags: Flags) {
    match v
    case Corrected => ShowsUpdate(Corrected, initial, words, flags)
    case AsWritten =>
      && ShowsStyleUpdate(initial.style, words.style, flags)
      && (0 in words.exStyle <==> 0 in initial.exStyle)
      && (flags.hasHelpButton ==>
            && ContextHelp <= words.exStyle
            && (words.exStyle - {0, 10} == initial.exStyle - {0, 10} || words.exStyle <= {0, 10}))
      && (!flags.hasHelpButton ==> words.exStyle <= {0, 10})
  }

  /** What holds of a window after any sequence of events. Before creation
      nothing is written, and with no handler pending no property has
      changed yet. After creation no handler is pending, and the words are
      updated words, or — when no property was ever changed — the initial
      words themselves. */
  predicate Invariant(v: Variant, initial: NativeWords, w: Window) {
    && (!w.handleCreated ==> w.words == initial && (w.pending == 0 ==> w.flags == DefaultFlags))
    && (w.handleCreated ==>
          (&& w.pending == 0
           && (|| UpdatedWords(v, initial, w.words, w.flags)
               || (w.flags == DefaultFlags && w.words == initial))))
  }

  lemma StepPreservesInvariant(v: Variant, initial: NativeWords, w: Window, e: Event)
    requires Invariant(v, initial, w)
    ensures Invariant(v, initial, Step(v, w, e))
  {
    var r := Step(v, w, e);
    match e
    case Set(flag, value) =>
      if w.handleCreated && w.flags.Get(flag) != value {
        var g := w.flags.With(flag, value);
        assert ShowsUpdate(v, w.words, r.words, g);
        ShowsHelpUpdateResult(v, w.words.exStyle, r.words.exStyle, g.hasHelpButton);
        if w.flags == DefaultFlags && w.words == initial {
          assert UpdatedWords(v, initial, r.words, g);
        } else {
          assert UpdatedWords(v, initial, w.words, w.flags);
          assert UpdatedWords(v, initial, r.words, g);
        }
      }
    case SourceReady =>
      if !w.handleCreated && w.pending > 0 {
        assert ShowsUpdate(v, initial, r.words, w.flags);
        ShowsHelpUpdateResult(v, initial.exStyle, r.words.exStyle, w.flags.hasHelpButton);
        assert UpdatedWords(v, initial, r.words, r.flags);
      }
  }

  lemma {:induction false} RunPreservesInvariant(v: Variant, initial: NativeWords, events: seq<Event>)
    ensures Invariant(v, initial, Run(v, Fresh(initial), events))
    decreases |events|
  {
    if |events| > 0 {
      RunPreservesInvariant(v, initial, events[..|events| - 1]);
      StepPreservesInvariant(v, initial, Run(v, Fresh(initial), events[..|events| - 1]), events[|events| - 1]);
    }
  }

  /** Corrected, once the native window exists its words depend only on the
      words it was created with and the current flags — not on the order or
      timing of the changes that led there — provided some property differs
      from its default. */
  lemma RunDependsOnlyOnFinalFlags(initial: NativeWords, events1: seq<Event>, events2: seq<Event>)
    requires Run(Corrected, Fresh(initial), events1).handleCreated
    requires Run(Corrected, Fresh(initial), events2).handleCreated
    requires Run(Corrected, Fresh(initial), events1).flags == Run(Corrected, Fresh(initial), events2).flags
    requires Run(Corrected, Fresh(initial), events1).flags != DefaultFlags
    ensures Run(Corrected, Fresh(initial), events1).words == Run(Corrected, Fresh(initial), events2).words
    ensures Synced(Run(Corrected, Fresh(initial), events1).words, Run(Corrected, Fresh(initial), events1).flags)
  {
    var w1 := Run(Corrected, Fresh(initial), events1);
    var w2 := Run(Corrected, Fresh(initial), events2);
    RunPreservesInvariant(Corrected, initial, events1);
    RunPreservesInvariant(Corrected, initial, events2);
    ShowsUpdateIsDetermined(Corrected, initial, w1.words, w1.flags);
    ShowsUpdateIsDetermined(Corrected, initial, w2.words, w2.flags);
  }

  /** As written too, the style word of a created window depends only on the
      initial words and the current flags, once some property has changed. */
  lemma RunStyleDependsOnlyOnFinalFlags(v: Variant, initial: NativeWords, events1: seq<Event>, events2: seq<Event>)
    requires Run(v, Fresh(initial), events1).handleCreated
    requires Run(v, Fresh(initial), events2).handleCreated
    requires Run(v, Fresh(initial), events1).flags == Run(v, Fresh(initial), events2).flags
    requires Run(v, Fresh(initial), events1).flags != DefaultFlags
    ensures Run(v, Fresh(initial), events1).words.style == Run(v, Fresh(initial), events2).words.style
    ensures StyleSynced(Run(v, Fresh(initial), events1).words, Run(v, Fresh(initial), events1).flags)
  {
    var w1 := Run(v, Fresh(initial), events1);
    var w2 := Run(v, Fresh(initial), events2);
    RunPreservesInvariant(v, initial, events1);
    RunPreservesInvariant(v, initial, events2);
    var f := w1.flags;
    ComputeStyleIsDetermined(initial.style, f.hasMaximizeButton, f.hasMinimizeButton, f.hasSystemMenu, w1.words.style);
    ComputeStyleIsDetermined(initial.style, f.hasMaximizeButton, f.hasMinimizeButton, f.hasSystemMenu, w2.words.style);
  }

  /** In both variants, changes made before the native window exists are
      applied at creation from the flags they leave behind: whatever their
      order, and even when a property was changed and changed back, the
      window is created with the initial words updated once from the
      current flags. */
  lemma CreationAppliesFinalFlags(v: Variant, initial: NativeWords, events: seq<Event>)
    requires SourceReady !in events
    requires Run(v, Fresh(initial), events).pending > 0
    ensures Run(v, Fresh(initial), events + [SourceReady]).words
         == ApplyUpdates(v, initial, Run(v, Fresh(initial), events).flags)
  {
    var before := Run(v, Fresh(initial), events);
    RunPreservesInvariant(v, initial, events);
    RunSnoc(v, Fresh(initial), events, SourceReady);
    var created := Run(v, Fresh(initial), events + [SourceReady]);
    ShowsUpdateIsDetermined(v, initial, created.words, before.flags);
  }

  /** Hence two sequences of changes made before creation that leave the same
      flags give the same window once it is created, as written too. */
  lemma ChangesBeforeCreationAreOrderIndependent(v: Variant, initial: NativeWords,
                                                 events1: seq<Event>, events2: seq<Event>)
    requires SourceReady !in events1 && SourceReady !in events2
    requires Run(v, Fresh(initial), events1).pending > 0 && Run(v, Fresh(initial), events2).pending > 0
    requires Run(v, Fresh(initial), events1).flags == Run(v, Fresh(initial), events2).flags
    ensures Run(v, Fresh(initial), events1 + [SourceReady]) == Run(v, Fresh(initial), events2 + [SourceReady])
  {
    CreationAppliesFinalFlags(v, initial, events1);
    CreationAppliesFinalFlags(v, initial, events2);
    RunSnoc(v, Fresh(initial), events1, SourceReady);
    RunSnoc(v, Fresh(initial), events2, SourceReady);
  }

  /** A property changed and changed back before creation still leaves its
      handlers subscribed, so the registered defaults are pushed to the
      window at creation: from empty words the style word gains the
      maximize box, minimize box and system menu, whereas creating the
      window with nothing changed leaves the words empty. */
  lemma RevertedChangePushesDefaults(v: Variant)
    ensures var empty := NativeWords({}, {});
      && Run(v, Fresh(empty), [Set(HasMaximizeButton, false), Set(HasMaximizeButton, true), SourceReady]).flags == DefaultFlags
      && Run(v, Fresh(empty), [Set(HasMaximizeButton, false), Set(HasMaximizeButton, true), SourceReady]).words
         == NativeWords({16, 17, 19}, {})
      && Run(v, Fresh(empty), [SourceReady]).words == empty
  {
    var empty := NativeWords({}, {});
    RunThree(v, Fresh(empty), Set(HasMaximizeButton, false), Set(HasMaximizeButton, true), SourceReady);
    RunSnoc(v, Fresh(empty), [], SourceReady);
    assert [] + [SourceReady] == [SourceReady];
    var off := Step(v, Fresh(empty), Set(HasMaximizeButton, false));
    var on := Step(v, off, Set(HasMaximizeButton, true));
    assert on.pending == 2 && on.words == empty && on.flags == DefaultFlags;
    var created := Step(v, on, SourceReady);
    assert ShowsUpdate(v, empty, created.words, DefaultFlags);
    ShowsHelpUpdateResult(v, {}, created.words.exStyle, false);
    var style := created.words.style;
    assert style - StyleMask == {};
    assert style == {16, 17, 19} by {
      forall i | i in style ensures i in {16, 17, 19} {
        assert i in StyleMask;
      }
    }
  }

  /** As written, the extended word of a created window depends on the
      changes made after creation: two runs ending with the same flags, one
      of which turned the help button on and off again, differ in the help
      bit — which stays set although the help button is off. Changes made
      before creation do not matter this way (`CreationAppliesFinalFlags`). */
  lemma AsWrittenRunDependsOnHistory(initial: NativeWords)
    requires initial.exStyle == {}
    ensures var short := [Set(HasMaximizeButton, false), SourceReady];
      var long := short + [Set(HasHelpButton, true), Set(HasHelpButton, false)];
      && Run(AsWritten, Fresh(initial), long).flags == Run(AsWritten, Fresh(initial), short).flags
      && !Run(AsWritten, Fresh(initial), long).flags.hasHelpButton
      && Run(AsWritten, Fresh(initial), long).words.exStyle == {10}
      && Run(AsWritten, Fresh(initial), short).words.exStyle == {}
  {
    var short := [Set(HasMaximizeButton, false), SourceReady];
    var long := short + [Set(HasHelpButton, true), Set(HasHelpButton, false)];
    RunTwo(AsWritten, Fresh(initial), short[0], short[1]);
    RunSnoc(AsWritten, Fresh(initial), short, long[2]);
    RunSnoc(AsWritten, Fresh(initial), short + [long[2]], long[3]);
    assert short + [long[2]] + [long[3]] == long;
    var changed := Step(AsWritten, Fresh(initial), short[0]);
    assert changed.pending == 1 && changed.words == initial && !changed.handleCreated;
    var created := Step(AsWritten, changed, SourceReady);
    assert ShowsUpdate(AsWritten, initial, created.words, changed.flags);
    ShowsHelpUpdateResult(AsWritten, initial.exStyle, created.words.exStyle, false);
    var on := Step(AsWritten, created, Set(HasHelpButton, true));
    assert ShowsUpdate(AsWritten, created.words, on.words, on.flags);
    ShowsHelpUpdateResult(AsWritten, created.words.exStyle, on.words.exStyle, true);
    var off := Step(AsWritten, on, Set(HasHelpButton, false));
    assert ShowsUpdate(AsWritten, on.words, off.words, off.flags);
    ShowsHelpUpdateResult(AsWritten, on.words.exStyle, off.words.exStyle, false);
    assert off.words.exStyle == {10} * {0, 10};
  }

  /** When every property set so far was set to its default, the window is
      as constructed apart from creation: no handler is pending and its
      native words are exactly as created — in such a run the registered
      defaults are not pushed to the window (a property changed and changed
      back does push them, see `RevertedChangePushesDefaults`). */
  lemma {:induction false} UnchangedDefaultsAreNotApplied(v: Variant, initial: NativeWords, events: seq<Event>)
    requires forall e :: e in events && e.Set? ==> DefaultFlags.Get(e.flag) == e.value
    ensures Run(v, Fresh(initial), events).flags == DefaultFlags
    ensures Run(v, Fresh(initial), events).words == initial
    ensures Run(v, Fresh(initial), events).pending == 0
    decreases |events|
  {
    if |events| > 0 {
      var prefix := events[..|events| - 1];
      assert forall e :: e in prefix ==> e in events;
      UnchangedDefaultsAreNotApplied(v, initial, prefix);
      var last := events[|events| - 1];
      assert last in events;
      if last.Set? {
        FlagsAreDetermined(DefaultFlags.With(last.flag, last.value), DefaultFlags);
      }
    }
  }

  /** A change made before the native window exists takes effect when it is
      created: turning the maximize button off first removes the maximize
      box at creation and shows the other two buttons, leaving every other
      style bit as it was. Corrected, the help bit is cleared and every
      other extended bit kept; as written, only bits 0 and 10 of the
      extended word survive, so a help bit the window was created with
      stays and every other extended bit is lost. */
  lemma ChangeBeforeCreationIsAppliedAtCreation(v: Variant, initial: NativeWords)
    ensures var w := Run(v, Fresh(initial), [Set(HasMaximizeButton, false), SourceReady]);
      && w.handleCreated && w.pending == 0
      && !(MaximizeBox <= w.words.style)
      && (MinimizeBox <= w.words.style) && (SystemMenu <= w.words.style)
      && w.words.style - StyleMask == initial.style - StyleMask
      && (v == Corrected ==> !(ContextHelp <= w.words.exStyle))
      && (v == Corrected ==> w.words.exStyle - ContextHelp == initial.exStyle - ContextHelp)
      && (v == AsWritten ==> w.words.exStyle == initial.exStyle * {0, 10})
  {
    RunTwo(v, Fresh(initial), Set(HasMaximizeButton, false), SourceReady);
    var changed := Step(v, Fresh(initial), Set(HasMaximizeButton, false));
    assert changed.pending == 1 && changed.words == initial && !changed.handleCreated;
    var w := Step(v, changed, SourceReady);
    assert ShowsUpdate(v, initial, w.words, changed.flags);
    ShowsHelpUpdateResult(v, initial.exStyle, w.words.exStyle, false);
  }

  /** As written, the help bit stays set once set: after turning the help
      button on and off again the window still carries the help bit.
      Corrected, it does not. */
  lemma HelpBitSticksAsWritten(v: Variant, initial: NativeWords)
    ensures var w := Run(v, Fresh(initial), [Set(HasHelpButton, true), SourceReady, Set(HasHelpButton, false)]);
      && w.handleCreated && !w.flags.hasHelpButton
      && (v == AsWritten ==> ContextHelp <= w.words.exStyle)
      && (v == Corrected ==> !(ContextHelp <= w.words.exStyle))
  {
    RunThree(v, Fresh(initial), Set(HasHelpButton, true), SourceReady, Set(HasHelpButton, false));
    var changed := Step(v, Fresh(initial), Set(HasHelpButton, true));
    assert changed.pending == 1 && changed.words == initial && !changed.handleCreated;
    var created := Step(v, changed, SourceReady);
    assert ShowsUpdate(v, initial, created.words, changed.flags);
    ShowsHelpUpdateResult(v, initial.exStyle, created.words.exStyle, true);
    var w := Step(v, created, Set(HasHelpButton, false));
    assert ShowsUpdate(v, created.words, w.words, w.flags);
    ShowsHelpUpdateResult(v, created.words.exStyle, w.words.exStyle, false);
  }
}
