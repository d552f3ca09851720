/** cfdk.c, dumpPanel.c, pciListPanel.c and client.c of the full-screen client:
    the event loop and the panels, changing their fields in place. */
module CfdkLoop {
  import opened Bytes
  import opened Listing
  import opened Machines
  import opened PciAddress
  import opened Packet
  import opened Client
  import opened Ui

  class Cfdk {
    var func: Func
    var prev: Func
    var input: int
    var base: u64
    var offset: int
    var bits: bool
    var editing: bool
    var editBuf: byte
    var help: bool
    var hlIndex: int
    var pageOffset: int
    const devs: seq<PciFn>
    var sent: seq<Request>

    function View(): State
      reads this
    {
      State(func, prev, input, base, offset, bits, editing, editBuf, help, hlIndex, pageOffset)
    }

    constructor (devs: seq<PciFn>)
      ensures View() == INITIAL && this.devs == devs && sent == []
    {
      func, prev, input, base, offset := KhfInit, KhfInit, 0, 0, 0;
      bits, editing, editBuf, help, hlIndex, pageOffset := false, false, 0, false, 0, 0;
      this.devs, sent := devs, [];
    }

    method SwitchFunction()
      modifies this
      ensures View() == Switched(old(View())) && sent == old(sent)
    {
      if prev != KhfPciList || func != KhfPci {
        base := 0;
      }
      offset, editing, hlIndex, pageOffset := 0, false, 0, 0;
    }

    method HandleKeyPressForPciListPanel() returns (open: bool)
      modifies this
      ensures (View(), open) == ListKey(old(View()), |devs|) && sent == old(sent)
    {
      var num := |devs|;
      open := false;
      if input == KEY_UP {
        if hlIndex != 0 {
          hlIndex := hlIndex - 1;
        } else if pageOffset != 0 {
          pageOffset := pageOffset - 1;
        }
      } else if input == KEY_DOWN {
        if hlIndex < PER_PAGE - 1 && pageOffset + hlIndex < num - 1 {
          hlIndex := hlIndex + 1;
        } else if pageOffset + PER_PAGE < num {
          pageOffset := pageOffset + 1;
        }
      } else if input == KEY_PPAGE {
        if num >= PER_PAGE {
          if pageOffset >= PER_PAGE {
            pageOffset := pageOffset - PER_PAGE;
          } else {
            pageOffset := 0;
          }
          hlIndex := 0;
        }
      } else if input == KEY_NPAGE {
        if num >= PER_PAGE {
          pageOffset := pageOffset + PER_PAGE;
          if pageOffset > num - PER_PAGE {
            pageOffset := num - PER_PAGE;
          }
          hlIndex := PER_PAGE - 1;
        }
      } else if input == ENTER && num != 0 {
        base := (hlIndex + pageOffset) % MAX64;
        open := true;
      }
    }

    method PageDump(down: bool)
      modifies this
      ensures View() == old(View()).(base := Paged(old(func), old(base), |devs|, down)) && sent == old(sent)
    {
      hide IoPage, OtherDevice;
      match func {
        case KhfPci =>
          if |devs| != 0 {
            base := OtherDevice(base, |devs|, down);
          }
        case KhfIo =>
          base := IoPage(if down then (base + SCREEN) % MAX64 else (base - SCREEN) % MAX64);
        case KhfCmos =>
        case KhfIde =>
          if down {
            base := (base + SCREEN) % MAX64;
          } else if base >= SCREEN {
            base := base - SCREEN;
          }
        case _ =>
          if down {
            base := (base + SCREEN) % MAX64;
          } else {
            base := (base - SCREEN) % MAX64;
          }
      }
    }

    method WriteEditedByte()
      modifies this`sent
      ensures sent == old(sent) + ByteWrite(View(), devs)
    {
      if func == KhfInit || func == KhfPciList {
        return;
      }
      var address := base;
      if func == KhfPci {
        if base >= |devs| {
          return;
        }
        var d := devs[base];
        address := CalculatePciAddress(d.bus, d.dev, d.fun);
      }
      sent := sent + [Request(WriteOp(SpaceOf(func)), (address + offset) % MAX64, 1, Some([editBuf]))];
    }

    method HandleKeyPressForDumpPanel()
      modifies this
      ensures View() == DumpKey(old(View()), |devs|) && sent == old(sent) + Commit(old(View()), devs)
    {
      var col := offset % LINE;
      if editing {
        if input == ENTER {
          WriteEditedByte();
          editing := false;
        } else if IsDigitKey(input) {
          editBuf := (editBuf * 16 + DigitOf(input)) % 256;
        }
        return;
      }
      if input == KEY_UP {
        offset := (offset - LINE + SCREEN) % SCREEN;
      } else if input == KEY_DOWN {
        offset := (offset + LINE) % SCREEN;
      } else if input == KEY_LEFT {
        offset := offset + if col != 0 then -1 else LINE - 1;
      } else if input == KEY_RIGHT {
        offset := offset + if col < LINE - 1 then 1 else -(LINE - 1);
      } else if input == KEY_PPAGE {
        PageDump(false);
      } else if input == KEY_NPAGE {
        PageDump(true);
      } else if input == ENTER {
        editing := true;
      } else if input == SPACE {
        bits := !bits;
      }
    }

    /** Sends the read for the current screen, if there is anything to read. */
    method ReadCurrent()
      modifies this`sent
      ensures sent == old(sent) + ScreenRead(View(), devs)
    {
      var address := base;
      if func == KhfPci {
        if base >= |devs| {
          return;
        }
        var d := devs[base];
        address := CalculatePciAddress(d.bus, d.dev, d.fun);
      }
      sent := sent + [Request(ReadOp(SpaceOf(func)), address, SCREEN, None)];
    }

    /** The switch over the key and the function change. */
    method SelectFunction(key: int)
      modifies this
      ensures View() == Selected(old(View()), key) && sent == old(sent)
    {
      input := key;
      var next := func;
      if key == KEY_F0 + 1 {
        help := !help;
      } else if key == KEY_F0 + 2 {
        next := KhfPciList;
      } else if key == KEY_F0 + 3 {
        next := KhfPci;
      } else if key == KEY_F0 + 4 {
        next := KhfIo;
      } else if key == KEY_F0 + 5 {
        next := KhfMem;
      } else if key == KEY_F0 + 6 {
        next := KhfIde;
      } else if key == KEY_F0 + 7 {
        next := KhfCmos;
      } else if key == ESC {
        editing := false;
      } else if next == KhfInit {
        next := KhfMem;
      }
      prev := func;
      func := next;
      if prev != next {
        SwitchFunction();
      }
    }

    /** The loop, for a finite run of keys; each screen read brings back what the
        run says. */
    method RunUi(run: seq<Input>)
      modifies this
      ensures var (s, qs) := Ran(old(View()), run, devs);
        View() == s && sent == old(sent) + qs
    {
      hide Iterated, Pressed;
      var i := 0;
      ghost var goal := Ran(View(), run, devs);
      ghost var out: seq<Request> := [];
      assert run[0..] == run;
      while i < |run|
        invariant i <= |run| && sent == old(sent) + out
        invariant var (s, qs) := Ran(View(), run[i..], devs);
          goal.0 == s && goal.1 == out + qs
      {
        ghost var now := View();
        var key := run[i].key;
        if key == ESC && !editing {
          return;
        }
        RanStep(now, run[i..], devs);
        assert run[i..][1..] == run[i + 1..];
        Iterate(run[i]);
        ghost var rest := Ran(View(), run[i + 1..], devs).1;
        assert out + (Pressed(now, key, devs).1 + rest) == (out + Pressed(now, key, devs).1) + rest;
        out := out + Pressed(now, key, devs).1;
        i := i + 1;
      }
    }

    lemma RanStep(s: State, run: seq<Input>, devs: seq<PciFn>)
      requires run != [] && !Quits(s, run[0].key)
      ensures var (t, qs) := Ran(Iterated(s, run[0], devs), run[1..], devs);
        Ran(s, run, devs) == (t, Pressed(s, run[0].key, devs).1 + qs)
    {
    }

    /** The listing's turn, if it is shown. */
    method ListPanelTurn()
      modifies this
      ensures View() == Listed(old(View()), |devs|) && sent == old(sent)
    {
      hide ListKey;
      if func == KhfPciList {
        var open := HandleKeyPressForPciListPanel();
        if open {
          prev, func, input := KhfPciList, KhfPci, ERR;
          SwitchFunction();
        }
      }
    }

    /** The dump panel's turn: the key, the screen read and the display. */
    method DumpPanelTurn(screen: Option<Screen>)
      modifies this
      ensures var t := DumpKey(old(View()), |devs|);
        && View() == Displayed(t, screen)
        && sent == old(sent) + (Commit(old(View()), devs) + ScreenRead(t, devs))
    {
      hide DumpKey, Commit, ScreenRead;
      ghost var s := View();
      HandleKeyPressForDumpPanel();
      ReadCurrent();
      assert sent == old(sent) + (Commit(s, devs) + ScreenRead(View(), devs));
      if screen.Some? && !editing && 0 <= offset < SCREEN {
        editBuf := screen.value[DumpOff(func) + offset];
      }
    }

    method Iterate(i: Input)
      modifies this
      ensures View() == Iterated(old(View()), i, devs) && sent == old(sent) + Pressed(old(View()), i.key, devs).1
    {
      hide Selected, Listed, DumpKey, Commit, ScreenRead, Displayed;
      SelectFunction(i.key);
      ListPanelTurn();
      if func != KhfPciList {
        DumpPanelTurn(i.screen);
      }
    }
  }
}
