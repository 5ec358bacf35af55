/**
 * The PS/2 keyboard input driver (kernel/src/dev/input/keyboard_ps2/keyboard.c):
 * its cache is the KeyCache module's; what it adds is the input-device
 * event interface.
 */
module KeyboardPs2 {
  import opened Kernel
  import opened KeyCache

  /** The event kinds the driver reports. */
  datatype EventKind = InputEventNone | InputEventKey

  /** input_device_event_t as far as the driver writes it: the kind and data[0]. */
  datatype Event = Event(kind: EventKind, data0: u64)

  /**
   * keyboard_ps2_get_event: with nothing waiting the event becomes
   * INPUT_EVENT_NONE with its data untouched; otherwise it is
   * INPUT_EVENT_KEY with the oldest scancode, sign-extended to 64 bits, in
   * data[0].  Either way the status is EOK.
   */
  method GetEvent(cache: KeyCache, event: Event, past: u8) returns (r: Event, res: u32)
    requires cache.Valid()
    modifies cache, cache.keycache
    ensures cache.Valid() && res == EOK && cache.keycache == old(cache.keycache)
    ensures old(cache.keyLoc) == 0 ==>
              r == event.(kind := InputEventNone) && cache.keyLoc == 0
              && cache.keycache[..] == old(cache.keycache[..])
    ensures old(cache.keyLoc) > 0 ==>
              r.kind == InputEventKey && r.data0 as int == Widen(old(cache.Contents())[0], 64)
              && old(cache.Contents()) == [old(cache.Contents())[0]] + cache.Contents()
  {
    if cache.keyLoc == 0 {
      return event.(kind := InputEventNone), EOK;
    }
    var c := cache.TakeFront(past);
    return Event(InputEventKey, Widen(c, 64) as u64), EOK;
  }

  /** The installed driver: the interrupt vector of its handler and its event callback. */
  datatype InputDevice = InputDevice(handlerVector: nat, hasGetEvent: bool)

  /**
   * keyboard_ps2_init: a zeroed 256-byte cache, the handler on vector 33
   * and get_event installed; the status is EOK.
   */
  method Init() returns (cache: KeyCache, dev: InputDevice, res: u32)
    ensures fresh(cache) && cache.Valid() && cache.Contents() == []
    ensures cache.keycache[..] == seq(CACHE_SIZE, _ => 0)
    ensures dev == InputDevice(KEYBOARD_VECTOR, true) && res == EOK
  {
    cache := new KeyCache();
    dev := InputDevice(KEYBOARD_VECTOR, true);
    res := EOK;
  }
}
