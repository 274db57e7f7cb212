/**
 * The macOS back end: the event-tap callback decodes the CoreGraphics event
 * type and routes key events to the tracker and mouse events to the mouse
 * counter. Key codes are 16-bit CoreGraphics virtual key codes; the key code
 * itself is read from the event by a foreign call and arrives here as a
 * parameter.
 */
module MacOS {
  import opened Adapter

  /** A u16 key code. */
  type KeyCode = x: int | 0 <= x < 0x1_0000

  /** Range of the `c_int` event type the callback receives. */
  predicate IsCInt(x: int)
  {
    -0x8000_0000 <= x < 0x8000_0000
  }

  const EventTypeKeyDown: nat := 10
  const EventTypeKeyUp: nat := 11
  /** EVENT_TYPE_MOUSE_EVENTS: left and right button down and up, mouse moved, scroll wheel. */
  const EventTypeMouseEvents: seq<nat> := [1, 2, 3, 4, 5, 22]

  /** `event_type as u32`: the 32-bit two's-complement reinterpretation of a c_int. */
  function AsU32(eventType: int): (u: nat)
    requires IsCInt(eventType)
    ensures u < 0x1_0000_0000 && u % 0x1_0000_0000 == eventType % 0x1_0000_0000
  {
    if eventType < 0 then eventType + 0x1_0000_0000 else eventType
  }

  /** Where the callback sends an event. */
  datatype Route = KeyRoute(isDown: bool) | MouseRoute | Ignored

  /**
   * The branches of event_callback: types 10 and 11 are key-down and key-up,
   * the six mouse types go to the mouse counter, everything else (including
   * every negative c_int, whose u32 image is at least 2^31) is ignored.
   */
  function RouteOf(eventType: int): (r: Route)
    requires IsCInt(eventType)
    ensures r.KeyRoute? <==> eventType == 10 || eventType == 11
    ensures r.KeyRoute? ==> (r.isDown <==> eventType == 10)
    ensures r == MouseRoute <==> eventType in {1, 2, 3, 4, 5, 22}
  {
    var t := AsU32(eventType);
    if t == EventTypeKeyDown || t == EventTypeKeyUp then KeyRoute(t == EventTypeKeyDown)
    else if t in EventTypeMouseEvents then MouseRoute
    else Ignored
  }

  /**
   * event_callback, with the event's key code already extracted and the two
   * clock readings passed in.
   */
  method EventCallback(a: Adapter<KeyCode>, eventType: int, keyCode: KeyCode, mono: nat, epoch: nat)
    requires IsCInt(eventType)
    modifies a.keys, a.activity
    ensures match RouteOf(eventType)
            case KeyRoute(isDown) => a.Observe() == OnKey(old(a.Observe()), keyCode, isDown, mono, epoch)
            case MouseRoute => a.Observe() == OnMouse(old(a.Observe()), epoch)
            case Ignored => a.Observe() == old(a.Observe())
    ensures a.activity.monitoring == old(a.activity.monitoring)
  {
    var eventTypeU32 := AsU32(eventType);
    if eventTypeU32 == EventTypeKeyDown || eventTypeU32 == EventTypeKeyUp {
      a.HandleKey(keyCode, eventTypeU32 == EventTypeKeyDown, mono, epoch);
    } else if eventTypeU32 in EventTypeMouseEvents {
      a.HandleMouse(epoch);
    }
  }
}
