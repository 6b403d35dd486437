/**
 * The flat multi-argument buffer of the math-operation unit tests: `count`
 * sub-buffers of `extent` elements each, stored one after the other in a host
 * buffer and a device buffer of `count * extent` elements. Element `idx` of
 * sub-buffer `offset` sits at slot `offset * extent + idx`.
 */
module TestBuffer {
  import opened Arith

  /** The slot addressed by `getArg<offset>(idx)` and `setArg(arg, idx, offset)`. */
  function Slot(extent: nat, offset: nat, idx: nat): nat
  {
    offset * extent + idx
  }

  /** Every in-range (offset, idx) pair addresses a slot of the buffer. */
  lemma SlotInRange(count: nat, extent: nat, offset: nat, idx: nat)
    requires offset < count && idx < extent
    ensures Slot(extent, offset, idx) < count * extent
  {
    MulLeRight(offset + 1, count, extent);
  }

  /** Distinct in-range pairs address distinct slots. */
  lemma SlotInjective(extent: nat, o1: nat, i1: nat, o2: nat, i2: nat)
    requires i1 < extent && i2 < extent
    requires Slot(extent, o1, i1) == Slot(extent, o2, i2)
    ensures o1 == o2 && i1 == i2
  {
    if o1 < o2 {
      MulLeRight(o1 + 1, o2, extent);
    } else if o2 < o1 {
      MulLeRight(o2 + 1, o1, extent);
    }
  }

  lemma QuotientBelow(count: nat, extent: nat, s: nat)
    requires s < count * extent
    ensures extent > 0 && s / extent < count
  {
    if count <= s / extent {
      MulLeRight(count, s / extent, extent);
    }
  }

  /**
   * The inverse of `Slot`: the sub-buffer and the element a slot of the
   * buffer belongs to.
   */
  function Coords(count: nat, extent: nat, s: nat): (r: (nat, nat))
    requires s < count * extent
    ensures r.0 < count && r.1 < extent
    ensures Slot(extent, r.0, r.1) == s
  {
    QuotientBelow(count, extent, s);
    (s / extent, s % extent)
  }

  /** `Coords` undoes `Slot` on every in-range pair. */
  lemma CoordsOfSlot(count: nat, extent: nat, offset: nat, idx: nat)
    requires offset < count && idx < extent
    ensures Slot(extent, offset, idx) < count * extent
    ensures Coords(count, extent, Slot(extent, offset, idx)) == (offset, idx)
  {
    SlotInRange(count, extent, offset, idx);
    var r := Coords(count, extent, Slot(extent, offset, idx));
    SlotInjective(extent, r.0, r.1, offset, idx);
  }

  /**
   * `Buffer<TAcc, TData, Idx, Dim, extentBuf, dimBuf>`: the sizes are the
   * template parameters, `host` and `dev` the storage behind `pHostBuffer`
   * and `pDevBuffer`.
   */
  class Buffer<T(0)> {
    const count: nat
    const extent: nat
    const size: nat
    const host: array<T>
    const dev: array<T>

    /** Both buffers hold exactly `count * extent` elements and do not overlap. */
    predicate Valid()
    {
      && size == count * extent
      && host.Length == size
      && dev.Length == size
      && host != dev
    }

    /** Allocates a host buffer and a device buffer of `dimBuf * extentBuf` elements. */
    constructor (dimBuf: nat, extentBuf: nat)
      ensures Valid()
      ensures count == dimBuf && extent == extentBuf
      ensures size == dimBuf * extentBuf
      ensures fresh(host) && fresh(dev)
    {
      count := dimBuf;
      extent := extentBuf;
      size := dimBuf * extentBuf;
      host := new T[dimBuf * extentBuf];
      dev := new T[dimBuf * extentBuf];
    }

    /** Host `getArg<offset>(idx)`: a plain read; the caller keeps the slot in the buffer. */
    function GetArg(offset: nat, idx: nat): T
      reads host
      requires Slot(extent, offset, idx) < host.Length
    {
      host[Slot(extent, offset, idx)]
    }

    /** Device `getArg<offset>(idx)`, as read by a kernel. */
    function GetArgDev(offset: nat, idx: nat): T
      reads dev
      requires Slot(extent, offset, idx) < dev.Length
    {
      dev[Slot(extent, offset, idx)]
    }

    /**
     * `setArg(arg, idx, offset)`: writes exactly one host slot; reading it
     * back gives `arg`, every other slot and the device buffer are unchanged.
     */
    method SetArg(arg: T, idx: nat, offset: nat)
      requires Valid()
      requires Slot(extent, offset, idx) < size
      modifies host
      ensures host[..] == old(host[..])[Slot(extent, offset, idx) := arg]
      ensures GetArg(offset, idx) == arg
      ensures forall s :: 0 <= s < size && s != Slot(extent, offset, idx) ==> host[s] == old(host[s])
    {
      host[Slot(extent, offset, idx)] := arg;
    }

    /** `copyToDevice`: all `count * extent` host elements replace the device ones. */
    method CopyToDevice()
      requires Valid()
      modifies dev
      ensures dev[..] == host[..]
      ensures host[..] == old(host[..])
    {
      var k := 0;
      while k < size
        invariant 0 <= k <= size
        invariant forall j :: 0 <= j < k ==> dev[j] == host[j]
        invariant host[..] == old(host[..])
      {
        dev[k] := host[k];
        k := k + 1;
      }
    }

    /** `copyFromDevice`: all `count * extent` device elements replace the host ones. */
    method CopyFromDevice()
      requires Valid()
      modifies host
      ensures host[..] == dev[..]
      ensures dev[..] == old(dev[..])
    {
      var k := 0;
      while k < size
        invariant 0 <= k <= size
        invariant forall j :: 0 <= j < k ==> host[j] == dev[j]
        invariant dev[..] == old(dev[..])
      {
        host[k] := dev[k];
        k := k + 1;
      }
    }
  }

  /**
   * An argument written on the host and copied to the device is what the
   * kernel reads back at the same (offset, idx).
   */
  method SetThenCopy<T(0)>(buf: Buffer<T>, arg: T, idx: nat, offset: nat)
    requires buf.Valid()
    requires offset < buf.count && idx < buf.extent
    modifies buf.host, buf.dev
    ensures Slot(buf.extent, offset, idx) < buf.size
    ensures buf.GetArgDev(offset, idx) == arg
    ensures buf.GetArg(offset, idx) == arg
  {
    SlotInRange(buf.count, buf.extent, offset, idx);
    buf.SetArg(arg, idx, offset);
    buf.CopyToDevice();
    assert buf.dev[Slot(buf.extent, offset, idx)] == buf.host[Slot(buf.extent, offset, idx)];
  }
}
