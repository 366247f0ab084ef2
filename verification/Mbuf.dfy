/** In-place editing of a DPDK message buffer. */
module Mbuf {
  import opened Machine

  datatype BufferError =
    | BadOffset(offset: nat, dataLen: nat)
    | NotResized
    | OutOfBuffer(size: nat, left: nat)
    | Exhausted

  /** What a call comes back with. `Overflow` is an integer operation of the call
      going out of range, which panics where overflow checks are on. */
  datatype Outcome<+T> = Done(value: T) | Failed(error: BufferError) | Overflow

  // ----- What a buffer means -----

  /** The bytes from `data_off` to the end of the buffer; the first `len` are the data. */
  datatype Window = Window(room: seq<u8>, len: nat) {
    ghost predicate Valid() {
      len <= |room|
    }

    ghost function Data(): (d: seq<u8>)
      requires Valid()
      ensures |d| == len
    {
      room[..len]
    }
  }

  datatype Edit =
    | Extend(offset: nat, count: nat)
    | Shrink(offset: nat, count: nat)
    | Truncate(toLen: nat)
    | Write(offset: nat, bytes: seq<u8>)

  /** Whether an edit takes effect; only lengths decide. */
  predicate Accepts(len: nat, capacity: nat, e: Edit) {
    match e
    case Extend(offset, count) => 0 < count && offset <= len && count < capacity - len
    case Shrink(offset, count) => 0 < count && offset + count <= len
    case Truncate(toLen) => toLen < len
    case Write(offset, bytes) => offset + |bytes| <= len
  }

  /** `s` after moving `n` bytes from `src` to `dst`; the ranges may overlap. */
  ghost function Moved(s: seq<u8>, src: nat, dst: nat, n: nat): (t: seq<u8>)
    requires src + n <= |s| && dst + n <= |s|
    ensures |t| == |s|
  {
    s[..dst] + s[src..src + n] + s[dst + n..]
  }

  /** Byte by byte: the destination holds what the source held before, and nothing else
      changes. */
  lemma IsMoved(s: seq<u8>, t: seq<u8>, src: nat, dst: nat, n: nat)
    requires src + n <= |s| && dst + n <= |s|
    ensures t == Moved(s, src, dst, n) <==>
              && |t| == |s|
              && (forall k :: dst <= k < dst + n ==> t[k] == s[k - dst + src])
              && (forall k :: 0 <= k < |s| && !(dst <= k < dst + n) ==> t[k] == s[k])
  {
    var u := Moved(s, src, dst, n);
    assert forall k :: dst <= k < dst + n ==> u[k] == s[k - dst + src];
    assert forall k :: 0 <= k < |s| && !(dst <= k < dst + n) ==> u[k] == s[k];
    if && |t| == |s|
       && (forall k :: dst <= k < dst + n ==> t[k] == s[k - dst + src])
       && (forall k :: 0 <= k < |s| && !(dst <= k < dst + n) ==> t[k] == s[k])
    {
      assert forall k :: 0 <= k < |s| ==> t[k] == u[k];
    }
  }

  /** The effect of one edit on the memory behind the window. */
  ghost function Apply(w: Window, e: Edit): (r: Window)
    requires w.Valid()
    ensures r.Valid() && |r.room| == |w.room|
  {
    if !Accepts(w.len, |w.room|, e) then w else
    match e
    case Extend(offset, count) => Window(Moved(w.room, offset, offset + count, w.len - offset), w.len + count)
    case Shrink(offset, count) =>
      Window(Moved(w.room, offset + count, offset, w.len - offset - count), w.len - count)
    case Truncate(toLen) => Window(w.room, toLen)
    case Write(offset, bytes) => Window(w.room[..offset] + bytes + w.room[offset + |bytes|..], w.len)
  }

  lemma ExtendApplies(w: Window, offset: nat, count: nat)
    requires w.Valid() && 0 < count && offset <= w.len && w.len + count < |w.room|
    ensures Apply(w, Extend(offset, count))
         == Window(Moved(w.room, offset, offset + count, w.len - offset), w.len + count)
  {
  }

  lemma ShrinkApplies(w: Window, offset: nat, count: nat)
    requires w.Valid() && 0 < count && offset + count <= w.len
    ensures Apply(w, Shrink(offset, count))
         == Window(Moved(w.room, offset + count, offset, w.len - offset - count), w.len - count)
  {
  }

  ghost function ApplyAll(w: Window, edits: seq<Edit>): (r: Window)
    requires w.Valid()
    ensures r.Valid() && |r.room| == |w.room|
    decreases |edits|
  {
    if edits == [] then w else ApplyAll(Apply(w, edits[0]), edits[1..])
  }

  // ----- The ideal editor -----

  /** One edit of a plain list of bytes that knows nothing of memory, of room for
      `capacity` bytes: insert a gap of unknown bytes, which may never fill the room,
      delete a range, keep a shorter prefix, overwrite. */
  ghost function Ideal(d: seq<Option<u8>>, capacity: nat, e: Edit): seq<Option<u8>> {
    match e
    case Extend(offset, count) =>
      if 1 <= count && offset <= |d| && |d| + count < capacity
      then d[..offset] + seq(count, _ => None) + d[offset..] else d
    case Shrink(offset, count) =>
      if 1 <= count && offset + count <= |d| then d[..offset] + d[offset + count..] else d
    case Truncate(toLen) =>
      if toLen < |d| then d[..toLen] else d
    case Write(offset, bytes) =>
      if offset + |bytes| <= |d| then d[..offset] + Known(bytes) + d[offset + |bytes|..] else d
  }

  ghost function IdealAll(d: seq<Option<u8>>, capacity: nat, edits: seq<Edit>): seq<Option<u8>>
    decreases |edits|
  {
    if edits == [] then d else IdealAll(Ideal(d, capacity, edits[0]), capacity, edits[1..])
  }

  ghost function Known(bytes: seq<u8>): (d: seq<Option<u8>>)
    ensures |d| == |bytes|
  {
    seq(|bytes|, i requires 0 <= i < |bytes| => Some(bytes[i]))
  }

  /** The data has the ideal length and every byte the ideal editor knows. */
  ghost predicate Agrees(w: Window, d: seq<Option<u8>>)
    requires w.Valid()
  {
    && |d| == w.len
    && forall i :: 0 <= i < w.len && d[i].Some? ==> w.Data()[i] == d[i].value
  }

  /** What each edit does to the data, and exactly when it does it. */
  lemma ExtendMeans(w: Window, offset: nat, count: nat)
    requires w.Valid()
    ensures var r := Apply(w, Extend(offset, count));
            if 1 <= count && offset <= w.len && w.len + count < |w.room|
            then r.len == w.len + count && r.Data()[..offset] == w.Data()[..offset]
                 && r.Data()[offset + count..] == w.Data()[offset..]
            else r == w
  {
  }

  lemma ShrinkMeans(w: Window, offset: nat, count: nat)
    requires w.Valid()
    ensures var r := Apply(w, Shrink(offset, count));
            if 1 <= count && offset + count <= w.len
            then r.Data() == w.Data()[..offset] + w.Data()[offset + count..]
            else r == w
  {
  }

  lemma WriteMeans(w: Window, offset: nat, bytes: seq<u8>)
    requires w.Valid()
    ensures var r := Apply(w, Write(offset, bytes));
            if offset + |bytes| <= w.len
            then r.Data() == w.Data()[..offset] + bytes + w.Data()[offset + |bytes|..]
            else r == w
  {
  }

  lemma EditRefines(w: Window, d: seq<Option<u8>>, e: Edit)
    requires w.Valid() && Agrees(w, d)
    ensures Agrees(Apply(w, e), Ideal(d, |w.room|, e))
  {
    match e
    case Extend(offset, count) => ExtendRefines(w, d, offset, count);
    case Shrink(offset, count) => ShrinkRefines(w, d, offset, count);
    case Truncate(_) =>
    case Write(offset, bytes) => WriteRefines(w, d, offset, bytes);
  }

  lemma ExtendRefines(w: Window, d: seq<Option<u8>>, offset: nat, count: nat)
    requires w.Valid() && Agrees(w, d)
    ensures Agrees(Apply(w, Extend(offset, count)), Ideal(d, |w.room|, Extend(offset, count)))
  {
    var r, i := Apply(w, Extend(offset, count)), Ideal(d, |w.room|, Extend(offset, count));
    if Accepts(w.len, |w.room|, Extend(offset, count)) {
      forall k | 0 <= k < r.len
        ensures i[k].Some? ==> r.room[k] == i[k].value
      {
        if offset <= k < offset + count {
          assert i[k] == None;
        } else {
          assert i[k] == d[if k < offset then k else k - count];
        }
      }
    }
  }

  lemma ShrinkRefines(w: Window, d: seq<Option<u8>>, offset: nat, count: nat)
    requires w.Valid() && Agrees(w, d)
    ensures Agrees(Apply(w, Shrink(offset, count)), Ideal(d, |w.room|, Shrink(offset, count)))
  {
    var r, i := Apply(w, Shrink(offset, count)), Ideal(d, |w.room|, Shrink(offset, count));
    if Accepts(w.len, |w.room|, Shrink(offset, count)) {
      forall k | 0 <= k < r.len
        ensures i[k].Some? ==> r.room[k] == i[k].value
      {
        assert i[k] == d[if k < offset then k else k + count];
      }
    }
  }

  lemma WriteRefines(w: Window, d: seq<Option<u8>>, offset: nat, bytes: seq<u8>)
    requires w.Valid() && Agrees(w, d)
    ensures Agrees(Apply(w, Write(offset, bytes)), Ideal(d, |w.room|, Write(offset, bytes)))
  {
    var r, i := Apply(w, Write(offset, bytes)), Ideal(d, |w.room|, Write(offset, bytes));
    if Accepts(w.len, |w.room|, Write(offset, bytes)) {
      forall k | 0 <= k < r.len
        ensures i[k].Some? ==> r.room[k] == i[k].value
      {
        if offset <= k < offset + |bytes| {
          assert i[k] == Known(bytes)[k - offset];
        } else {
          assert i[k] == d[k];
        }
      }
    }
  }

  /** Any run of edits on a buffer is the same run on a plain list of bytes, although
      the buffer moves its bytes within one fixed array. */
  lemma {:induction false} RunRefines(w: Window, d: seq<Option<u8>>, edits: seq<Edit>)
    requires w.Valid() && Agrees(w, d)
    ensures Agrees(ApplyAll(w, edits), IdealAll(d, |w.room|, edits))
    decreases |edits|
  {
    if edits != [] {
      EditRefines(w, d, edits[0]);
      RunRefines(Apply(w, edits[0]), Ideal(d, |w.room|, edits[0]), edits[1..]);
    }
  }

  /** The strict bound of `extend` keeps the last byte of a buffer out of every run that
      did not start with it: it is never part of the data and never written. */
  lemma {:induction false} LastByteIsNeverReached(w: Window, edits: seq<Edit>)
    requires w.Valid() && w.len < |w.room|
    ensures ApplyAll(w, edits).len < |w.room|
    ensures ApplyAll(w, edits).room[|w.room| - 1] == w.room[|w.room| - 1]
    decreases |edits|
  {
    if edits != [] {
      LastByteIsNeverReached(Apply(w, edits[0]), edits[1..]);
    }
  }

  // ----- Round trips -----

  /** A gap put in at `offset` and cut out again leaves the data as it was. */
  lemma ExtendThenShrink(w: Window, offset: nat, count: nat)
    requires w.Valid() && 1 <= count && offset <= w.len && w.len + count < |w.room|
    ensures ApplyAll(w, [Extend(offset, count), Shrink(offset, count)]).Valid()
    ensures ApplyAll(w, [Extend(offset, count), Shrink(offset, count)]).Data() == w.Data()
  {
    var edits := [Extend(offset, count), Shrink(offset, count)];
    var gapped := Apply(w, edits[0]);
    TwoEdits(w, edits);
    ExtendMeans(w, offset, count);
    ShrinkMeans(gapped, offset, count);
    assert gapped.Data()[..offset] + gapped.Data()[offset + count..] == w.Data();
  }

  /** Making room and writing into it inserts the bytes and keeps the rest. */
  lemma ExtendThenWrite(w: Window, offset: nat, bytes: seq<u8>)
    requires w.Valid() && 1 <= |bytes| && offset <= w.len && w.len + |bytes| < |w.room|
    ensures ApplyAll(w, [Extend(offset, |bytes|), Write(offset, bytes)]).Valid()
    ensures ApplyAll(w, [Extend(offset, |bytes|), Write(offset, bytes)]).Data()
         == w.Data()[..offset] + bytes + w.Data()[offset..]
  {
    TwoEdits(w, [Extend(offset, |bytes|), Write(offset, bytes)]);
    ExtendMeans(w, offset, |bytes|);
    WriteMeans(Apply(w, Extend(offset, |bytes|)), offset, bytes);
  }

  lemma TwoEdits(w: Window, edits: seq<Edit>)
    requires w.Valid() && |edits| == 2
    ensures ApplyAll(w, edits) == Apply(Apply(w, edits[0]), edits[1])
  {
    assert edits[1..][1..] == [] && edits[1..][0] == edits[1];
    assert ApplyAll(w, edits) == ApplyAll(Apply(w, edits[0]), edits[1..]);
  }

  lemma SliceOfSlice<T>(s: seq<T>, off: nat, len: nat, offset: nat, count: nat)
    requires off + len <= |s| && offset + count <= len
    ensures s[off..off + len][offset..offset + count] == s[off + offset..off + offset + count]
  {
    var t, u := s[off..off + len][offset..offset + count], s[off + offset..off + offset + count];
    assert forall k :: 0 <= k < |t| ==> t[k] == u[k];
  }

  // ----- The buffer -----

  /** `ptr::copy`: moves `n` bytes within one array, front to back or back to front so
      that no byte is read after it was overwritten. */
  method CopyWithin(buf: array<u8>, src: nat, dst: nat, n: nat)
    requires src + n <= buf.Length && dst + n <= buf.Length
    modifies buf
    ensures buf[..] == Moved(old(buf[..]), src, dst, n)
  {
    if dst <= src {
      CopyForward(buf, src, dst, n);
    } else {
      CopyBackward(buf, src, dst, n);
    }
  }

  method CopyForward(buf: array<u8>, src: nat, dst: nat, n: nat)
    requires dst <= src && src + n <= buf.Length
    modifies buf
    ensures buf[..] == Moved(old(buf[..]), src, dst, n)
  {
    ghost var was := buf[..];
    for i := 0 to n
      invariant forall k :: dst <= k < dst + i ==> buf[k] == was[k - dst + src]
      invariant forall k :: 0 <= k < buf.Length && !(dst <= k < dst + i) ==> buf[k] == was[k]
    {
      buf[dst + i] := buf[src + i];
    }
    IsMoved(was, buf[..], src, dst, n);
  }

  method CopyBackward(buf: array<u8>, src: nat, dst: nat, n: nat)
    requires src <= dst && dst + n <= buf.Length
    modifies buf
    ensures buf[..] == Moved(old(buf[..]), src, dst, n)
  {
    ghost var was := buf[..];
    for i := n downto 0
      invariant forall k :: dst + i <= k < dst + n ==> buf[k] == was[k - dst + src]
      invariant forall k :: 0 <= k < buf.Length && !(dst + i <= k < dst + n) ==> buf[k] == was[k]
    {
      buf[dst + i] := buf[src + i];
    }
    IsMoved(was, buf[..], src, dst, n);
  }

  /** `ptr::copy_nonoverlapping` from a source outside the buffer. */
  method CopyFrom(buf: array<u8>, dst: nat, bytes: seq<u8>)
    requires dst + |bytes| <= buf.Length
    modifies buf
    ensures buf[..] == old(buf[..dst]) + bytes + old(buf[dst + |bytes|..])
  {
    for i := 0 to |bytes|
      invariant buf[..] == old(buf[..dst]) + bytes[..i] + old(buf[dst + i..])
    {
      buf[dst + i] := bytes[i];
    }
  }

  lemma MovedInRoom(s: seq<u8>, off: nat, src: nat, dst: nat, n: nat)
    requires off + src + n <= |s| && off + dst + n <= |s|
    ensures Moved(s, off + src, off + dst, n)[off..] == Moved(s[off..], src, dst, n)
    ensures Moved(s, off + src, off + dst, n)[..off] == s[..off]
  {
    var t, u := Moved(s, off + src, off + dst, n), Moved(s[off..], src, dst, n);
    forall k | 0 <= k < |u|
      ensures t[off + k] == u[k]
    {
    }
  }

  class Mbuf {
    const buf: array<u8>
    var dataOff: u16
    var dataLen: u16
    var pktLen: u32

    ghost predicate Valid()
      reads this
    {
      && buf.Length < 0x1_0000
      && dataOff as int + dataLen as int <= buf.Length
      && pktLen as int == dataLen as int
    }

    ghost function View(): (w: Window)
      requires Valid()
      reads this, buf
      ensures w.Valid()
    {
      Window(buf[dataOff..], dataLen as nat)
    }

    ghost function Data(): (d: seq<u8>)
      requires Valid()
      reads this, buf
      ensures d == buf[dataOff..dataOff as nat + dataLen as nat]
    {
      View().Data()
    }

    /** The bytes before the data, which no edit may touch. */
    ghost function Headroom(): seq<u8>
      requires Valid()
      reads this, buf
    {
      buf[..dataOff]
    }

    /** A buffer as the pool hands it out: no data yet. */
    constructor (size: u16, headroom: u16)
      requires headroom <= size
      ensures Valid() && fresh(buf) && buf.Length == size as int
      ensures dataOff == headroom && dataLen == 0
    {
      buf := new u8[size];
      dataOff, dataLen, pktLen := headroom, 0, 0;
    }

    method Tailroom() returns (n: usize)
      requires Valid()
      ensures n as int == buf.Length - dataOff as int - dataLen as int
    {
      n := (buf.Length as u16 - dataOff - dataLen) as usize;
    }

    /** `ptr::copy` between two data addresses. */
    method CopyData(from: usize, to: usize, n: usize)
      requires Valid()
      requires from as int + n as int <= |View().room| && to as int + n as int <= |View().room|
      modifies buf
      ensures Valid() && Headroom() == old(Headroom())
      ensures buf[dataOff..] == Moved(old(buf[dataOff..]), from as nat, to as nat, n as nat)
    {
      ghost var before := buf[..];
      var off := dataOff as nat;
      CopyWithin(buf, off + from as nat, off + to as nat, n as nat);
      MovedInRoom(before, off, from as nat, to as nat, n as nat);
      ghost var after := buf[..];
      assert buf[off..] == after[off..] && buf[..off] == after[..off];
    }

    /** The same unless there is nothing to copy. */
    method CopyTail(from: usize, to: usize, toCopy: usize)
      requires Valid()
      requires from as int + toCopy as int <= |View().room| && to as int + toCopy as int <= |View().room|
      modifies buf
      ensures Valid() && Headroom() == old(Headroom())
      ensures buf[dataOff..] == Moved(old(buf[dataOff..]), from as nat, to as nat, toCopy as nat)
    {
      if toCopy > 0 {
        CopyData(from, to, toCopy);
      } else {
        assert buf[dataOff..] == Moved(buf[dataOff..], from as nat, to as nat, 0);
      }
    }

    method Extend(offset: usize, len: usize) returns (r: Outcome<()>)
      requires Valid()
      modifies this, buf
      ensures Valid() && dataOff == old(dataOff) && Headroom() == old(Headroom())
      ensures View() == Apply(old(View()), Edit.Extend(offset as nat, len as nat))
      ensures r == if 0 < len && offset as int <= old(dataLen) as int
                      && len as int < old(buf.Length - dataOff as int - dataLen as int)
                   then Done(()) else Failed(NotResized)
    {
      if !(len > 0) {
        return Failed(NotResized);
      }
      if !(offset <= dataLen as usize) {
        return Failed(NotResized);
      }
      var tailroom := Tailroom();
      if !(len < tailroom) {
        return Failed(NotResized);
      }
      ghost var w := View();
      ghost var gapped := Apply(w, Edit.Extend(offset as nat, len as nat));
      var toCopy := dataLen as usize - offset;
      ExtendApplies(w, offset as nat, len as nat);
      CopyTail(offset, offset + len, toCopy);
      dataLen := dataLen + len as u16;
      pktLen := pktLen + len as u32;
      assert View() == gapped;
      return Done(());
    }

    method Shrink(offset: usize, len: usize) returns (r: Outcome<()>)
      requires Valid()
      modifies this, buf
      ensures Valid() && dataOff == old(dataOff) && Headroom() == old(Headroom())
      ensures View() == Apply(old(View()), Edit.Shrink(offset as nat, len as nat))
      ensures r == if len > 0 && offset as int + len as int >= USIZE_LIMIT then Overflow
                   else if len > 0 && offset as int + len as int <= old(dataLen) as int
                   then Done(()) else Failed(NotResized)
    {
      if !(len > 0) {
        return Failed(NotResized);
      }
      if offset as int + len as int >= USIZE_LIMIT {
        return Overflow;
      }
      if !(offset + len <= dataLen as usize) {
        return Failed(NotResized);
      }
      ghost var w := View();
      ghost var cut := Apply(w, Edit.Shrink(offset as nat, len as nat));
      var toCopy := dataLen as usize - offset - len;
      ShrinkApplies(w, offset as nat, len as nat);
      CopyTail(offset + len, offset, toCopy);
      dataLen := dataLen - len as u16;
      pktLen := pktLen - len as u32;
      assert View() == cut;
      return Done(());
    }

    method Resize(offset: usize, len: isize) returns (r: Outcome<()>)
      requires Valid()
      modifies this, buf
      ensures Valid() && dataOff == old(dataOff) && Headroom() == old(Headroom())
      ensures View() == if len < 0 then Apply(old(View()), Edit.Shrink(offset as nat, -(len as int)))
                        else Apply(old(View()), Edit.Extend(offset as nat, len as nat))
      ensures r.Done? <==> old(View()) != View()
      ensures r == Overflow <==> len as int == ISIZE_MIN || (len < 0 && offset as int - len as int >= USIZE_LIMIT)
    {
      if len < 0 {
        if len as int == ISIZE_MIN {
          return Overflow;
        }
        r := Shrink(offset, (-len) as usize);
      } else {
        r := Extend(offset, len as usize);
      }
    }

    method Truncate(toLen: usize) returns (r: Outcome<()>)
      requires Valid()
      modifies this
      ensures Valid() && dataOff == old(dataOff)
      ensures View() == Apply(old(View()), Edit.Truncate(toLen as nat))
      ensures r == if toLen as int < old(dataLen) as int then Done(()) else Failed(NotResized)
      ensures r.Done? ==> Data() == old(Data())[..toLen]
    {
      if !(toLen < dataLen as usize) {
        return Failed(NotResized);
      }
      dataLen := toLen as u16;
      pktLen := toLen as u32;
      return Done(());
    }

    /** `ptr::copy_nonoverlapping` to a data address. */
    method WriteData(offset: usize, bytes: seq<u8>)
      requires Valid() && offset as int + |bytes| <= View().len
      modifies buf
      ensures Valid() && Headroom() == old(Headroom())
      ensures View() == Apply(old(View()), Edit.Write(offset as nat, bytes))
    {
      ghost var before := buf[..];
      var at := dataOff as nat + offset as nat;
      CopyFrom(buf, at, bytes);
      assert buf[dataOff..] == before[dataOff..][..offset] + bytes + before[dataOff..][offset as nat + |bytes|..];
      assert buf[..dataOff] == before[..dataOff];
    }

    /** Reads `bytes` = `T::size_of() * count` bytes of data, a product that may leave the
        range of `usize`; `read_data` is the case of one item. The bytes stand for the
        returned pointer. */
    method ReadDataSlice(offset: usize, bytes: nat) returns (r: Outcome<seq<u8>>)
      requires Valid()
      ensures offset as nat >= dataLen as nat ==> r == Failed(BadOffset(offset as nat, dataLen as nat))
      ensures offset as nat < dataLen as nat && offset as nat + bytes >= USIZE_LIMIT ==> r == Overflow
      ensures offset as nat < dataLen as nat < offset as nat + bytes < USIZE_LIMIT ==>
                r == Failed(OutOfBuffer(bytes, dataLen as nat - offset as nat))
      ensures offset as nat < dataLen as nat && offset as nat + bytes <= dataLen as nat ==>
                r == Done(Data()[offset..offset as nat + bytes])
    {
      if !(offset < dataLen as usize) {
        return Failed(BadOffset(offset as nat, dataLen as nat));
      }
      if offset as nat + bytes >= USIZE_LIMIT {
        return Overflow;
      }
      if !(offset as nat + bytes <= dataLen as nat) {
        return Failed(OutOfBuffer(bytes, dataLen as nat - offset as nat));
      }
      var at := dataOff as nat + offset as nat;
      SliceOfSlice(buf[..], dataOff as nat, dataLen as nat, offset as nat, bytes);
      return Done(buf[at..at + bytes]);
    }

    /** Overwrites the data at `offset` with the bytes of a slice, which Rust keeps
        within the range of `isize`. */
    method WriteDataSlice(offset: usize, slice: seq<u8>) returns (r: Outcome<seq<u8>>)
      requires Valid() && |slice| < -ISIZE_MIN
      modifies buf
      ensures Valid() && Headroom() == old(Headroom())
      ensures View() == Apply(old(View()), Edit.Write(offset as nat, slice))
      ensures r.Done? <==> offset as nat + |slice| <= dataLen as nat && offset < dataLen as usize
      ensures r.Done? ==> r.value == slice
      ensures r.Done? ==>
                Data() == old(Data())[..offset] + slice + old(Data())[offset as nat + |slice|..]
      ensures r == Overflow <==> offset as nat > dataLen as nat
      ensures r.Failed? ==> r.error == if |slice| == 0 then BadOffset(offset as nat, dataLen as nat)
                                    else OutOfBuffer(|slice|, dataLen as nat - offset as nat)
    {
      WriteMeans(View(), offset as nat, slice);
      var count := |slice|;
      if offset as nat + count >= USIZE_LIMIT {
        return Overflow;
      }
      if !(offset as nat + count <= dataLen as nat) {
        if offset as nat > dataLen as nat {
          return Overflow;
        }
        return Failed(OutOfBuffer(count, dataLen as nat - offset as nat));
      }
      WriteData(offset, slice);
      r := ReadDataSlice(offset, count);
    }
  }

  /** Builds a buffer holding `data` in what the pool allocated, if anything. A buffer
      that is not returned is dropped, and so goes back to the pool. */
  method FromBytes(alloc: Option<Mbuf>, data: seq<u8>) returns (r: Outcome<Mbuf>, freed: set<Mbuf>)
    requires alloc.Some? ==> alloc.value.Valid() && alloc.value.dataLen == 0
    requires |data| < -ISIZE_MIN
    modifies if alloc.Some? then {alloc.value, alloc.value.buf} else {}
    ensures r.Done? <==> alloc.Some? && 0 < |data| < old(alloc.value.buf.Length - alloc.value.dataOff as int)
    ensures r.Done? ==> r.value == alloc.value && r.value.Valid() && r.value.Data() == data
    ensures r == Failed(Exhausted) <==> alloc.None?
    ensures freed == if alloc.Some? && !r.Done? then {alloc.value} else {}
  {
    if alloc.None? {
      return Failed(Exhausted), {};
    }
    var mbuf := alloc.value;
    ghost var w := mbuf.View();
    var extended := mbuf.Extend(0, |data| as usize);
    if !extended.Done? {
      return Failed(extended.error), {mbuf};
    }
    var written := mbuf.WriteDataSlice(0, data);
    ExtendThenWrite(w, 0, data);
    TwoEdits(w, [Edit.Extend(0, |data|), Edit.Write(0, data)]);
    return Done(mbuf), {};
  }
}
