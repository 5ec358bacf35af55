/**
 * The older keyboard driver (kernel/src/dev/input/keyboard/keyboard.c): the
 * same cache as the PS/2 driver, read one key at a time.
 */
module Keyboard {
  import opened Kernel
  import opened KeyCache

  /** DRIVER_TYPE_INPUT of driver_type_t. */
  const DRIVER_TYPE_INPUT: u32 := 3

  /**
   * keyboard_get_key: 0 with nothing waiting, the cache untouched;
   * otherwise the oldest scancode as a `char` widened to uint32_t, so bytes
   * of 0x80 and up come back sign-extended.
   */
  method GetKey(cache: KeyCache, past: u8) returns (r: u32)
    requires cache.Valid()
    modifies cache, cache.keycache
    ensures cache.Valid() && cache.keycache == old(cache.keycache)
    ensures old(cache.keyLoc) == 0 ==>
              r == 0 && cache.keyLoc == 0 && cache.keycache[..] == old(cache.keycache[..])
    ensures old(cache.keyLoc) > 0 ==>
              r as int == Widen(old(cache.Contents())[0], 32)
              && old(cache.Contents()) == [old(cache.Contents())[0]] + cache.Contents()
  {
    if cache.keyLoc == 0 {
      return 0;
    }
    var c := cache.TakeFront(past);
    return Widen(c, 32) as u32;
  }

  /** keyboard_init: the driver's type, a zeroed cache and the handler on vector 33. */
  method Init() returns (cache: KeyCache, driverType: u32, handlerVector: nat, res: u32)
    ensures fresh(cache) && cache.Valid() && cache.Contents() == []
    ensures cache.keycache[..] == seq(CACHE_SIZE, _ => 0)
    ensures driverType == DRIVER_TYPE_INPUT && handlerVector == KEYBOARD_VECTOR && res == EOK
  {
    cache := new KeyCache();
    driverType := DRIVER_TYPE_INPUT;
    handlerVector := KEYBOARD_VECTOR;
    res := EOK;
  }
}
