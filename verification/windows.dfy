/**
 * The Windows back end: the low-level keyboard and mouse hook procedures.
 * Virtual-key codes are 32-bit. The hook's lParam, when not null, points at
 * a KBDLLHOOKSTRUCT; here it is the optional virtual-key code it holds.
 */
module Windows {
  import opened Wrappers
  import opened Adapter

  /** A u32 virtual-key code. */
  type VirtualKey = x: int | 0 <= x < 0x1_0000_0000

  /** HC_ACTION: the hook code under which the event must be processed. */
  const HcAction: int := 0

  const WmKeyDown: nat := 0x0100
  const WmKeyUp: nat := 0x0101
  const WmSysKeyDown: nat := 0x0104
  const WmSysKeyUp: nat := 0x0105

  /**
   * keyboard_proc's down/up decoding: WM_KEYDOWN and WM_SYSKEYDOWN are
   * key-downs; every other wParam, the two key-up messages included, is
   * taken as a key-up.
   */
  function IsKeyDown(wparam: nat): (down: bool)
    ensures down ==> wparam in {WmKeyDown, WmSysKeyDown}
    ensures wparam in {WmKeyDown, WmSysKeyDown} ==> down
    ensures wparam == WmKeyUp || wparam == WmSysKeyUp ==> !down
  {
    wparam == WmKeyDown || wparam == WmSysKeyDown
  }

  /**
   * keyboard_proc: only under HC_ACTION and with a hook structure present is
   * the event classified and counted. Passing the event on to the next hook
   * is not modelled.
   */
  method KeyboardProc(a: Adapter<VirtualKey>, code: int, wparam: nat, kbd: Option<VirtualKey>, mono: nat, epoch: nat)
    modifies a.keys, a.activity
    ensures code == HcAction && kbd.Some? ==>
              a.Observe() == OnKey(old(a.Observe()), kbd.value, IsKeyDown(wparam), mono, epoch)
    ensures code != HcAction || kbd.None? ==> a.Observe() == old(a.Observe())
    ensures a.activity.monitoring == old(a.activity.monitoring)
  {
    if code == HcAction {
      if kbd.Some? {
        var virtualKey := kbd.value;
        var isKeyDown := wparam == WmKeyDown || wparam == WmSysKeyDown;
        a.HandleKey(virtualKey, isKeyDown, mono, epoch);
      }
    }
  }

  /** mouse_proc: under HC_ACTION every mouse event is counted and genuine. */
  method MouseProc(a: Adapter<VirtualKey>, code: int, epoch: nat)
    modifies a.activity
    ensures code == HcAction ==> a.Observe() == OnMouse(old(a.Observe()), epoch)
    ensures code != HcAction ==> a.Observe() == old(a.Observe())
    ensures a.activity.monitoring == old(a.activity.monitoring)
  {
    if code == HcAction {
      a.HandleMouse(epoch);
    }
  }
}
