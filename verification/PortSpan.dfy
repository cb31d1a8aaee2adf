/** The WebDriver port allocator of e2e_lifecycle_stress.rs, in u16 arithmetic. `bindable` says which
    ports can be bound at the time of the search. */
module PortSpan {
  import opened Wrappers

  const LAST_PORT: u16 := 65534
  const SEARCH_DISTANCE: u16 := 128

  datatype Problem = OffsetOverflow | RangeOverflow | NoFreeSpan(nominal: u16)

  /** `u16::checked_add`. */
  function CheckedAdd(a: u16, b: u16): Option<u16> {
    if a as int + b as int < 0x1_0000 then Some(a + b) else None
  }

  function SaturatingDecrement(a: u16): u16 {
    if a == 0 then 0 else a - 1
  }

  /** `checked_port`; the offset is a `usize`. */
  function CheckedPort(base: u16, offset: nat): Result<u16, Problem> {
    if offset >= 0x1_0000 then Err(OffsetOverflow)
    else
      match CheckedAdd(base, offset as u16)
      case None => Err(RangeOverflow)
      case Some(port) => if port <= LAST_PORT then Ok(port) else Err(RangeOverflow)
  }

  /** The span of `width` ports from `start` lies below 65535 and can be bound as a whole. */
  ghost predicate FreeSpan(start: int, width: int, bindable: u16 -> bool) {
    && width >= 1 && 0 <= start && start + width - 1 <= 65534
    && forall p: u16 :: start <= p as int < start + width ==> bindable(p)
  }

  /** `span_is_available`. */
  method SpanIsAvailable(start: u16, width: u16, bindable: u16 -> bool) returns (r: bool)
    ensures r <==> FreeSpan(start as int, width as int, bindable)
  {
    if width == 0 {
      return false;
    }
    var last := CheckedAdd(start, SaturatingDecrement(width));
    if last == None {
      return false;
    }
    if last.value > LAST_PORT {
      return false;
    }
    var listeners: seq<u16> := [];
    for offset: u16 := 0 to width
      invariant |listeners| == offset as int
      invariant forall k :: 0 <= k < |listeners| ==> listeners[k] as int == start as int + k && bindable(listeners[k])
      invariant forall p: u16 :: start as int <= p as int < start as int + offset as int ==> bindable(p)
    {
      var port := CheckedAdd(start, offset);
      if port == None {
        return false;
      }
      if !bindable(port.value) {
        return false;
      }
      listeners := listeners + [port.value];
    }
    return true;
  }

  /** `start` is the first free span at or after `nominal`. */
  ghost predicate FirstFreeSpan(nominal: int, start: int, width: int, bindable: u16 -> bool) {
    && nominal <= start <= nominal + 128
    && FreeSpan(start, width, bindable)
    && forall s :: nominal <= s < start ==> !FreeSpan(s, width, bindable)
  }

  ghost predicate NoFreeSpanNear(nominal: int, width: int, bindable: u16 -> bool) {
    forall s :: nominal <= s <= nominal + 128 ==> !FreeSpan(s, width, bindable)
  }

  /** `checked_available_port`: the least start within 128 of the nominal port whose whole span is
      free; an error exactly when the nominal port is out of range or there is no such start. */
  method CheckedAvailablePort(base: u16, offset: nat, width: u16, bindable: u16 -> bool)
    returns (r: Result<u16, Problem>)
    ensures r.Ok? <==>
              && base as int + offset <= 65534
              && !NoFreeSpanNear(base as int + offset, width as int, bindable)
    ensures r.Ok? ==> FirstFreeSpan(base as int + offset, r.value as int, width as int, bindable)
    ensures offset >= 0x1_0000 ==> r == Err(OffsetOverflow)
    ensures offset < 0x1_0000 && base as int + offset > 65534 ==> r == Err(RangeOverflow)
    ensures base as int + offset <= 65534 && r.Err? ==> r.error == NoFreeSpan((base as int + offset) as u16)
  {
    var nominal := CheckedPort(base, offset);
    if nominal.Err? {
      return Err(nominal.error);
    }
    ghost var from, ports := nominal.value as int, width as int;
    var delta: u16 := 0;
    while delta <= SEARCH_DISTANCE
      invariant delta <= SEARCH_DISTANCE + 1
      invariant forall s :: from <= s < from + delta as int ==> !FreeSpan(s, ports, bindable)
      decreases SEARCH_DISTANCE + 1 - delta
    {
      var candidate := CheckedAdd(nominal.value, delta);
      if candidate == None {
        break;
      }
      var available := SpanIsAvailable(candidate.value, width, bindable);
      if available {
        assert FreeSpan(candidate.value as int, width as int, bindable);
        return Ok(candidate.value);
      }
      delta := delta + 1;
    }
    return Err(NoFreeSpan(nominal.value));
  }

  /** A span of `width` ports serves every narrower request at the same place, so a wider request never
      gets an earlier start. */
  lemma WiderStartsLater(nominal: int, narrow: int, wide: int, width: int, more: int, bindable: u16 -> bool)
    requires 1 <= width <= more
    requires FirstFreeSpan(nominal, narrow, width, bindable) && FirstFreeSpan(nominal, wide, more, bindable)
    ensures narrow <= wide
  {
    assert FreeSpan(wide, width, bindable);
  }
}
