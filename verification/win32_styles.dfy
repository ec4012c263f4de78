/**
 The native side of the title-bar controller: the Win32 window-style masks it
 owns, the pair of 32-bit style words the window manager keeps for a window,
 and the pure computations that turn the decoration flags into new style
 words. Words are the 32-bit words of module Words.
 */
module Win32Styles {
  import opened Words

  /** `GetWindowLong`/`SetWindowLong` index of the regular style word (GWL_STYLE). */
  const Style: int := -16
  /** `GetWindowLong`/`SetWindowLong` index of the extended style word (GWL_EXSTYLE). */
  const ExtStyle: int := -20

  /** WS_MAXIMIZEBOX, 0x10000 */
  const MaximizeBox: Word := {16}
  /** WS_MINIMIZEBOX, 0x20000 */
  const MinimizeBox: Word := {17}
  /** WS_EX_CONTEXTHELP, 0x400 */
  const ContextHelp: Word := {10}
  /** WS_SYSMENU, 0x00080000 */
  const SystemMenu: Word := {19}

  /** The bits of the regular style word that the controller owns. */
  const StyleMask: Word := Or(Or(MaximizeBox, MinimizeBox), SystemMenu)

  /** The mask the help-button clear branch ANDs with as the code is written:
      the negation of the complement of ContextHelp. */
  const HelpClearMaskAsWritten: Word := Neg(Not(ContextHelp))

  /** The mask constants have the values the Win32 headers give them. */
  lemma MaskValues()
    ensures Value(MaximizeBox) == 0x10000
    ensures Value(MinimizeBox) == 0x20000
    ensures Value(ContextHelp) == 0x400
    ensures Value(SystemMenu) == 0x80000
  {
    assert Pow2(2) == 4 && Pow2(3) == 8;
    assert Pow2(4) == 16 by { Pow2Add(2, 2); }
    assert Pow2(8) == 256 by { Pow2Add(4, 4); }
    assert Pow2(10) == 0x400 by { Pow2Add(8, 2); }
    assert Pow2(16) == 0x10000 by { Pow2Add(8, 8); }
    assert Pow2(17) == 0x20000 by { Pow2Add(16, 1); }
    assert Pow2(19) == 0x80000 by { Pow2Add(16, 3); }
    ValueSingleton(16);
    ValueSingleton(17);
    ValueSingleton(10);
    ValueSingleton(19);
  }

  /** `-~ContextHelp` is 0x401 (bits 0 and 10), not the intended `~ContextHelp`
      (0xFFFFFBFF): in two's complement `-~x` is `x + 1`. */
  lemma HelpClearMaskAsWrittenIs0x401()
    ensures HelpClearMaskAsWritten == {0, 10}
    ensures Value(Not(ContextHelp)) == 0xFFFF_FBFF
    ensures Value(HelpClearMaskAsWritten) == 0x401
  {
    assert 0 in Not(ContextHelp);
    assert LowestBitFrom(Not(ContextHelp), 0) == 0;
    MaskValues();
    NotValue(ContextHelp);
    Pow2Width();
    NegValue(Not(ContextHelp));
  }

  predicate IsWordIndex(index: int) {
    index == Style || index == ExtStyle
  }

  /** The two style words the window manager stores for one native window. */
  datatype NativeWords = NativeWords(style: Word, exStyle: Word) {

    function GetWindowLong(index: int): Word
      requires IsWordIndex(index)
    {
      if index == Style then style else exStyle
    }

    /** Stores one word. The previous value, which the caller ignores, is not returned. */
    function SetWindowLong(index: int, value: Word): (r: NativeWords)
      requires IsWordIndex(index)
      ensures r.GetWindowLong(index) == value
      ensures forall other :: IsWordIndex(other) && other != index ==>
                r.GetWindowLong(other) == GetWindowLong(other)
    {
      if index == Style then this.(style := value) else this.(exStyle := value)
    }
  }

  /** The regular style word after the maximize-box, minimize-box and
      system-menu bits have been set or cleared in turn from the three flags:
      each owned bit ends up set exactly when its flag is, and every other
      bit keeps its value. */
  function ComputeStyle(style: Word, maximize: bool, minimize: bool, systemMenu: bool): (r: Word)
    ensures MaximizeBox <= r <==> maximize
    ensures MinimizeBox <= r <==> minimize
    ensures SystemMenu <= r <==> systemMenu
    ensures r - StyleMask == style - StyleMask
  {
    var afterMaximize := if maximize then Or(style, MaximizeBox) else And(style, Not(MaximizeBox));
    var afterMinimize := if minimize then Or(afterMaximize, MinimizeBox) else And(afterMaximize, Not(MinimizeBox));
    if systemMenu then Or(afterMinimize, SystemMenu) else And(afterMinimize, Not(SystemMenu))
  }

  /** The extended style word as the help-button update is meant to compute
      it: bit 0x400 set exactly when the help button is wanted, nothing else
      touched. */
  function ComputeExtendedStyle(exStyle: Word, help: bool): (r: Word)
    ensures ContextHelp <= r <==> help
    ensures r - ContextHelp == exStyle - ContextHelp
  {
    if help then Or(exStyle, ContextHelp) else And(exStyle, Not(ContextHelp))
  }

  /** The extended style word as the help-button update is written. Setting
      is right; the clear branch masks with 0x401, so it keeps bit 0x400 as
      it was, keeps bit 0, and clears every other bit. */
  function ComputeExtendedStyleAsWritten(exStyle: Word, help: bool): (r: Word)
    ensures help ==> r == ComputeExtendedStyle(exStyle, true)
    ensures !help ==> (ContextHelp <= r <==> ContextHelp <= exStyle)
    ensures !help ==> (0 in r <==> 0 in exStyle)
    ensures !help ==> r <= {0, 10}
  {
    HelpClearMaskAsWrittenIs0x401();
    if help then Or(exStyle, ContextHelp) else And(exStyle, HelpClearMaskAsWritten)
  }

  /** Any word with the promised bits of ComputeStyle is its result: the
      contract pins the computation down completely. */
  lemma ComputeStyleIsDetermined(style: Word, maximize: bool, minimize: bool, systemMenu: bool, r: Word)
    requires MaximizeBox <= r <==> maximize
    requires MinimizeBox <= r <==> minimize
    requires SystemMenu <= r <==> systemMenu
    requires r - StyleMask == style - StyleMask
    ensures r == ComputeStyle(style, maximize, minimize, systemMenu)
  {
    var c := ComputeStyle(style, maximize, minimize, systemMenu);
    forall i | i in r
      ensures i in c
    {
      if i !in StyleMask {
        assert i in r - StyleMask;
      }
    }
    forall i | i in c
      ensures i in r
    {
      if i !in StyleMask {
        assert i in c - StyleMask;
      }
    }
  }

  /** Any word with the promised bits of ComputeExtendedStyle is its result. */
  lemma ComputeExtendedStyleIsDetermined(exStyle: Word, help: bool, r: Word)
    requires ContextHelp <= r <==> help
    requires r - ContextHelp == exStyle - ContextHelp
    ensures r == ComputeExtendedStyle(exStyle, help)
  {
    var c := ComputeExtendedStyle(exStyle, help);
    forall i | i in r
      ensures i in c
    {
      if i != 10 {
        assert i in r - ContextHelp;
      }
    }
    forall i | i in c
      ensures i in r
    {
      if i != 10 {
        assert i in c - ContextHelp;
      }
    }
  }

  /** A second style update overrides the first entirely. */
  lemma ComputeStyleLastWriteWins(style: Word, max1: bool, min1: bool, sys1: bool,
                                  max2: bool, min2: bool, sys2: bool)
    ensures ComputeStyle(ComputeStyle(style, max1, min1, sys1), max2, min2, sys2)
         == ComputeStyle(style, max2, min2, sys2)
  {
    var twice := ComputeStyle(ComputeStyle(style, max1, min1, sys1), max2, min2, sys2);
    ComputeStyleIsDetermined(style, max2, min2, sys2, twice);
  }

  lemma ComputeStyleIdempotent(style: Word, maximize: bool, minimize: bool, systemMenu: bool)
    ensures ComputeStyle(ComputeStyle(style, maximize, minimize, systemMenu), maximize, minimize, systemMenu)
         == ComputeStyle(style, maximize, minimize, systemMenu)
  {
    ComputeStyleLastWriteWins(style, maximize, minimize, systemMenu, maximize, minimize, systemMenu);
  }

  /** A word whose owned bits already agree with the flags is left exactly as
      it is, so turning the maximize box off and back on restores it. */
  lemma ComputeStyleKeepsAgreeingWord(style: Word, maximize: bool, minimize: bool, systemMenu: bool)
    requires MaximizeBox <= style <==> maximize
    requires MinimizeBox <= style <==> minimize
    requires SystemMenu <= style <==> systemMenu
    ensures ComputeStyle(style, maximize, minimize, systemMenu) == style
    ensures ComputeStyle(ComputeStyle(style, !maximize, minimize, systemMenu), maximize, minimize, systemMenu) == style
  {
    ComputeStyleIsDetermined(style, maximize, minimize, systemMenu, style);
    ComputeStyleLastWriteWins(style, !maximize, minimize, systemMenu, maximize, minimize, systemMenu);
  }

  lemma ComputeExtendedStyleLastWriteWins(exStyle: Word, help1: bool, help2: bool)
    ensures ComputeExtendedStyle(ComputeExtendedStyle(exStyle, help1), help2) == ComputeExtendedStyle(exStyle, help2)
  {
    var twice := ComputeExtendedStyle(ComputeExtendedStyle(exStyle, help1), help2);
    ComputeExtendedStyleIsDetermined(exStyle, help2, twice);
  }

  lemma ComputeExtendedStyleAsWrittenIdempotent(exStyle: Word, help: bool)
    ensures ComputeExtendedStyleAsWritten(ComputeExtendedStyleAsWritten(exStyle, help), help)
         == ComputeExtendedStyleAsWritten(exStyle, help)
  {
    HelpClearMaskAsWrittenIs0x401();
  }

  /** The written clear branch agrees with the intended one exactly on the
      words 0 and 1: any other 1-bit is either wrongly kept (0x400) or wrongly
      dropped (all the rest). */
  lemma AsWrittenAgreesOnlyOnBitZero(exStyle: Word)
    ensures ComputeExtendedStyleAsWritten(exStyle, false) == ComputeExtendedStyle(exStyle, false)
        <==> exStyle <= {0}
  {
    var written := ComputeExtendedStyleAsWritten(exStyle, false);
    var intended := ComputeExtendedStyle(exStyle, false);
    HelpClearMaskAsWrittenIs0x401();
    if !(exStyle <= {0}) {
      var i :| i in exStyle && i != 0;
      if i == 10 {
        assert i in written && i !in intended;
      } else {
        assert i in intended && i !in written;
      }
    }
  }

  /** Two concrete words: the help bit survives the clear branch, and the
      unrelated bit 0x100 (WS_EX_WINDOWEDGE) is wiped by it. */
  lemma AsWrittenClearBranchCounterexamples()
    ensures ContextHelp <= ComputeExtendedStyleAsWritten(ContextHelp, false)
    ensures !(ContextHelp <= ComputeExtendedStyle(ContextHelp, false))
    ensures ComputeExtendedStyleAsWritten({8}, false) == {}
    ensures ComputeExtendedStyle({8}, false) == {8}
  {
    HelpClearMaskAsWrittenIs0x401();
  }
}
