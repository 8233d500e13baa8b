/**
  doctest's `String`: up to 23 characters live in a 24-byte buffer whose last byte holds the
  remaining capacity, longer ones on the heap.  The same 24 bytes hold the heap pointer,
  size and capacity, so writing one view of them destroys the other.
 */
module DoctestString {
  import opened Common
  import opened Bits

  const LEN: nat := 24
  const LAST: nat := 23
  /** The bytes that the pointer, the size and the capacity take up. */
  const VIEW: nat := 16
  const UINT32: nat := 0x1_0000_0000

  datatype View = View(ptr: array?<Byte>, size: nat, capacity: nat)

  /** The flag in the last byte, and the five bits below it. */
  lemma LastByte(c: Byte)
    ensures And(c, 128) == 0 <==> c < 128
    ensures And(c, 31) == c % 32
  {
    hide And;
    LowMasks(c);
    TopBit(c);
  }

  /** The capacity is doubled in 32 bits; a wrapped result is too small and replaced. */
  function Grown(capacity: nat, total: nat): (c: nat)
    requires capacity <= total && total + 1 < UINT32
    ensures total < c < UINT32
    ensures c == if total < 2 * capacity < UINT32 then 2 * capacity else total + 1
  {
    var doubled := capacity * 2 % UINT32;
    if doubled <= total then total + 1 else doubled
  }

  /** Terminated characters behind others: the characters join, and the terminator comes last. */
  lemma Terminated(all: Bytes, head: Bytes, chars: Bytes, tail: Bytes)
    requires chars != [] && chars[|chars| - 1] == 0 && all == head + chars + tail
    ensures var n := |head| + |chars| - 1;
            n < |all| && all[..n] == head + chars[..|chars| - 1] && all[n] == 0 && all[n + 1..] == tail
  {
  }

  /** Copies terminated characters behind the first `mine` ones. */
  method AppendTerminated(block: array<Byte>, mine: nat, chars: Bytes)
    requires chars != [] && chars[|chars| - 1] == 0 && mine + |chars| <= block.Length
    modifies block
    ensures block[..mine + |chars| - 1] == old(block[..mine]) + chars[..|chars| - 1]
    ensures block[mine + |chars| - 1] == 0
  {
    ghost var head, tail := block[..mine], block[mine + |chars|..];
    Memcpy(block, mine, chars);
    Terminated(block[..], head, chars, tail);
    ghost var n := mine + |chars| - 1;
    assert block[..n] == block[..][..n] && block[n] == block[..][n];
  }

  class String {
    const buf: array<Byte>
    /** Meaningful only while the string is on the heap. */
    var data: View

    /** `isOnStack` */
    predicate OnStack()
      reads this, buf
      requires buf.Length == LEN
    {
      And(buf[LAST], 128) == 0
    }

    ghost predicate Valid()
      reads this, buf, data.ptr
    {
      && buf.Length == LEN
      && (if OnStack() then
            buf[LAST] <= LAST && buf[LAST - buf[LAST]] == 0
          else
            && buf[LAST] == 128
            && data.ptr != null && data.ptr != buf
            && data.ptr.Length == data.capacity < UINT32
            && LEN <= data.size < data.capacity
            && data.ptr[data.size] == 0)
    }

    ghost function Contents(): Bytes
      reads this, buf, data.ptr
      requires Valid()
    {
      if OnStack() then LastByte(buf[LAST]); buf[..LAST - buf[LAST]] else data.ptr[..data.size]
    }

    /** The arrays that belong to this string. */
    ghost function Repr(): set<object>
      reads this, buf, data.ptr
      requires Valid()
    {
      {this, buf} + if OnStack() then {} else {data.ptr}
    }

    /** What makes a string that lives on the heap. */
    ghost method HeapRepresentation()
      requires buf.Length == LEN && buf[LAST] == 128 && data.ptr != null && data.ptr != buf
      requires data.ptr.Length == data.capacity < UINT32 && LEN <= data.size < data.capacity && data.ptr[data.size] == 0
      ensures Valid() && !OnStack() && Contents() == data.ptr[..data.size]
    {
      hide And;
      LastByte(128);
    }

    /** What makes a string that lives in the buffer. */
    ghost method StackRepresentation(size: nat)
      requires buf.Length == LEN && size <= LAST && buf[LAST] == LAST - size && buf[size] == 0
      ensures Valid() && OnStack() && Contents() == buf[..size]
    {
      hide And;
      LastByte(LAST - size);
    }

    // ----- The two views of the 24 bytes

    /** Writes the pointer view: the first 16 bytes of the buffer become something else. */
    method SetView(v: View)
      requires buf.Length == LEN
      modifies this, buf
      ensures data == v && buf[VIEW..] == old(buf[VIEW..])
    {
      data := v;
      for i := 0 to VIEW
        invariant data == v && buf[VIEW..] == old(buf[VIEW..])
      {
        buf[i] := 0;
      }
    }

    /** Writes bytes of the buffer: if they reach into the first 16, the pointer view becomes something else. */
    method SetBytes(at: nat, src: Bytes)
      requires buf.Length == LEN && at + |src| <= LEN
      modifies this, buf
      ensures buf[..] == old(buf[..at]) + src + old(buf[at + |src|..])
      ensures VIEW <= at ==> data == old(data)
    {
      Memcpy(buf, at, src);
      if at < VIEW {
        data := View(null, 0, 0);
      }
    }

    method SetOnHeap()
      requires buf.Length == LEN
      modifies this, buf
      ensures buf[..] == old(buf[..LAST]) + [128] && data == old(data)
    {
      SetBytes(LAST, [128]);
    }

    /** From now on the characters are on the heap. */
    method PointTo(v: View)
      requires buf.Length == LEN
      modifies this, buf
      ensures data == v && buf[LAST] == 128
    {
      SetOnHeap();
      ghost var before := buf[VIEW..];
      assert before[LAST - VIEW] == buf[..][LAST] == 128;
      SetView(v);
      assert buf[LAST] == buf[VIEW..][LAST - VIEW];
    }

    method SetLast(value: nat)
      requires buf.Length == LEN && value <= LAST
      modifies this, buf
      ensures buf[..] == old(buf[..LAST]) + [value] && data == old(data)
    {
      SetBytes(LAST, [value]);
    }

    /** Writes the empty string into the buffer. */
    method Clear()
      requires buf.Length == LEN
      modifies this, buf
      ensures Valid() && OnStack() && Contents() == [] && Repr() == {this, buf}
    {
      hide And;
      LastByte(LAST);
      SetBytes(0, [0]);
      SetLast(LAST);
    }

    // ----- Construction

    constructor ()
      ensures Valid() && fresh(Repr()) && Contents() == []
    {
      buf := new Byte[LEN];
      data := View(null, 0, 0);
      new;
      Clear();
    }

    /** From `size` characters at `in'`, which the caller has terminated. */
    constructor FromChars(in': Bytes, size: nat)
      requires size < |in'| && in'[size] == 0 && size + 1 < UINT32
      ensures Valid() && fresh(Repr()) && Contents() == in'[..size]
    {
      buf := new Byte[LEN];
      data := View(null, 0, 0);
      new;
      Init(in', size);
    }

    /** Moves to a new block on the heap that holds `block`, terminator included. */
    method CopyToHeap(block: Bytes, size: nat)
      requires buf.Length == LEN && LEN <= size && size + 1 < UINT32
      requires |block| == size + 1 && block[size] == 0
      modifies this, buf
      ensures Valid() && Contents() == block[..size]
      ensures !OnStack() && fresh(data.ptr) && data.capacity == size + 1
    {
      hide And;
      var ptr := new Byte[size + 1];
      PointTo(View(ptr, size, size + 1));
      Memcpy(ptr, 0, block);
      HeapRepresentation();
    }

    /** The body of that constructor. */
    method Init(in': Bytes, size: nat)
      requires buf.Length == LEN
      requires size < |in'| && in'[size] == 0 && size + 1 < UINT32
      modifies this, buf
      ensures Valid() && Contents() == in'[..size]
      ensures !OnStack() ==> fresh(data.ptr)
    {
      hide And;
      if size <= LAST {
        SetBytes(0, in'[..size + 1]);
        SetLast(LAST - size);
        assert buf[..size] == in'[..size];
        StackRepresentation(size);
      } else {
        CopyToHeap(in'[..size + 1], size);
      }
    }

    /** `copy`, after the caller has given up any heap block of its own. */
    method CopyFrom(other: String)
      requires buf.Length == LEN && other.Valid() && this != other && buf !in other.Repr()
      modifies this, buf
      ensures Valid() && Contents() == old(other.Contents())
      ensures !OnStack() ==> fresh(data.ptr) && data.capacity == data.size + 1
      ensures OnStack() == old(other.OnStack())
    {
      hide And;
      if other.OnStack() {
        SetBytes(0, other.buf[..]);
        SameRepresentation(other);
      } else {
        CopyToHeap(other.data.ptr[..other.data.size + 1], other.data.size);
      }
    }

    constructor Copy(other: String)
      requires other.Valid()
      ensures Valid() && fresh(Repr()) && Contents() == other.Contents()
    {
      buf := new Byte[LEN];
      data := View(null, 0, 0);
      new;
      CopyFrom(other);
    }

    /** Takes over the bytes, and with them any heap block; what is left behind is empty. */
    method TakeFrom(other: String)
      requires buf.Length == LEN && other.Valid() && this != other && buf !in other.Repr()
      modifies this, buf, other, other.buf
      ensures Valid() && Contents() == old(other.Contents())
      ensures Repr() <= {this, buf} + (old(other.Repr()) - {other, other.buf})
      ensures other.Valid() && other.Contents() == [] && other.Repr() == {other, other.buf}
    {
      hide And;
      SetBytes(0, other.buf[..]);
      data := other.data;
      assert buf[..] == other.buf[..];
      SameRepresentation(other);
      other.Clear();
    }

    /** Two strings with the same bytes have the same contents. */
    ghost method SameRepresentation(other: String)
      requires buf.Length == LEN && other.Valid() && this != other && buf !in other.Repr()
      requires buf[..] == other.buf[..] && (!other.OnStack() ==> data == other.data)
      ensures Valid() && OnStack() == other.OnStack() && Contents() == other.Contents()
    {
      hide And;
      assert forall i :: 0 <= i < LEN ==> buf[i] == buf[..][i] == other.buf[..][i] == other.buf[i];
    }

    constructor Move(other: String)
      requires other.Valid()
      modifies other, other.buf
      ensures Valid() && Contents() == old(other.Contents())
      ensures fresh(Repr() - old(other.Repr())) && Repr() !! {other, other.buf}
      ensures other.Valid() && other.Contents() == [] && other.Repr() == {other, other.buf}
    {
      buf := new Byte[LEN];
      data := View(null, 0, 0);
      new;
      TakeFrom(other);
    }

    // ----- Assignment

    /** Copy assignment, to itself as well. */
    method Assign(other: String)
      requires Valid() && other.Valid() && (this == other || Repr() !! other.Repr())
      modifies this, buf
      ensures Valid() && Contents() == old(other.Contents())
      ensures this != other ==> other.Valid() && other.Contents() == old(other.Contents())
      ensures fresh(Repr() - old(Repr()))
    {
      if this != other {
        CopyFrom(other);
      }
    }

    method MoveAssign(other: String)
      requires Valid() && other.Valid() && (this == other || Repr() !! other.Repr())
      modifies this, buf, other, other.buf
      ensures Valid() && Contents() == old(other.Contents())
      ensures this != other ==> other.Valid() && other.Contents() == []
      ensures this != other ==> Repr() !! other.Repr() && Repr() <= {this, buf} + old(other.Repr())
    {
      if this != other {
        TakeFrom(other);
      }
    }

    // ----- Reading

    method Size() returns (n: nat)
      requires Valid()
      ensures n == |Contents()|
    {
      hide And;
      if OnStack() {
        LastByte(buf[LAST]);
        return LAST - And(buf[LAST], 31);
      }
      return data.size;
    }

    method Capacity() returns (n: nat)
      requires Valid()
      ensures |Contents()| < n && (n == LEN <==> |Contents()| < LEN)
    {
      hide And;
      if OnStack() {
        return LEN;
      }
      return data.capacity;
    }

    /** `operator[]`: the terminator can be read too. */
    method At(i: nat) returns (c: Byte)
      requires Valid() && i <= |Contents()|
      ensures c == (Contents() + [0])[i]
    {
      hide And;
      if OnStack() {
        LastByte(buf[LAST]);
        return buf[i];
      }
      return data.ptr[i];
    }

    /** Assigning to `operator[]`, which changes a character in place. */
    method SetAt(i: nat, c: Byte)
      requires Valid() && i < |Contents()|
      modifies Repr()
      ensures Valid() && Contents() == old(Contents())[i := c] && OnStack() == old(OnStack())
      ensures !OnStack() ==> data == old(data)
    {
      hide And;
      if OnStack() {
        LastByte(buf[LAST]);
        ghost var n := |Contents()|;
        SetBytes(i, [c]);
        assert buf[..n] == old(buf[..n])[i := c] && buf[n..] == old(buf[n..]);
        assert buf[LAST] == buf[n..][LAST - n] && buf[n] == buf[n..][0];
      } else {
        data.ptr[i] := c;
      }
    }

    /** The characters `c_str()` points to, with the terminator. */
    method CStr(n: nat) returns (b: Bytes)
      requires Valid() && n == |Contents()|
      ensures b == Contents() + [0]
    {
      hide And;
      if OnStack() {
        LastByte(buf[LAST]);
        b := buf[..n + 1];
      } else {
        b := data.ptr[..n + 1];
      }
    }

    // ----- Appending: the four branches of `operator+=`

    /** The terminated `chars` fit behind the characters in the buffer. */
    method AppendOnStack(mine: nat, chars: Bytes, total: nat)
      requires Valid() && OnStack() && total < LEN
      requires mine == |Contents()| && total == mine + |chars| - 1 && total + 1 < UINT32
      requires chars != [] && chars[|chars| - 1] == 0
      modifies Repr()
      ensures Valid() && Contents() == old(Contents()) + chars[..|chars| - 1]
      ensures OnStack()
    {
      hide And;
      LastByte(buf[LAST]);
      ghost var head, tail := buf[..mine], buf[mine + |chars|..];
      hide String.Valid, String.Contents;
      SetBytes(mine, chars);
      Terminated(buf[..], head, chars, tail);
      ghost var before := buf[..];
      SetLast(LAST - total);
      ghost var after := buf[..];
      assert after == before[..LAST] + [LAST - total];
      assert after[..total] == before[..total] && buf[..total] == after[..total];
      assert buf[LAST] == after[LAST] && buf[total] == after[total];
      StackRepresentation(total);
    }

    /** The buffer is too small: everything moves to a new block. */
    method LeaveStack(mine: nat, chars: Bytes, total: nat)
      requires Valid() && OnStack() && LEN <= total
      requires mine == |Contents()| && total == mine + |chars| - 1 && total + 1 < UINT32
      requires chars != [] && chars[|chars| - 1] == 0
      modifies Repr()
      ensures Valid() && Contents() == old(Contents()) + chars[..|chars| - 1]
      ensures !OnStack() && fresh(data.ptr) && data.capacity == total + 1
    {
      hide And;
      LastByte(buf[LAST]);
      ghost var head := buf[..mine];
      assert head == Contents();
      hide String.Valid, String.Contents;
      var temp := new Byte[total + 1];
      Memcpy(temp, 0, buf[..mine]);
      assert temp[..mine] == temp[..][..mine] == head;
      PointTo(View(temp, total, total + 1));
      AppendTerminated(temp, mine, chars);
      HeapRepresentation();
    }

    /** The block on the heap is large enough. */
    method AppendOnHeap(mine: nat, chars: Bytes, total: nat)
      requires Valid() && !OnStack() && total < data.capacity
      requires mine == |Contents()| && total == mine + |chars| - 1 && total + 1 < UINT32
      requires chars != [] && chars[|chars| - 1] == 0
      modifies Repr()
      ensures Valid() && Contents() == old(Contents()) + chars[..|chars| - 1]
      ensures !OnStack() && data.ptr == old(data.ptr) && data.capacity == old(data.capacity)
    {
      hide And;
      LastByte(128);
      SetView(data.(size := total));
      assert buf[LAST] == buf[VIEW..][LAST - VIEW] == old(buf[VIEW..])[LAST - VIEW] == 128;
      AppendTerminated(data.ptr, mine, chars);
    }

    /** The block is replaced by a larger one. */
    method GrowOnHeap(mine: nat, chars: Bytes, total: nat)
      requires Valid() && !OnStack() && data.capacity <= total
      requires mine == |Contents()| && total == mine + |chars| - 1 && total + 1 < UINT32
      requires chars != [] && chars[|chars| - 1] == 0
      modifies Repr()
      ensures Valid() && Contents() == old(Contents()) + chars[..|chars| - 1]
      ensures !OnStack() && fresh(data.ptr) && data.capacity == Grown(old(data.capacity), total)
    {
      hide And;
      LastByte(128);
      var capacity := Grown(data.capacity, total);
      var temp := new Byte[capacity];
      Memcpy(temp, 0, data.ptr[..mine]);
      SetView(View(temp, total, capacity));
      assert buf[LAST] == buf[VIEW..][LAST - VIEW] == old(buf[VIEW..])[LAST - VIEW] == 128;
      assert temp[..mine] == old(Contents());
      AppendTerminated(temp, mine, chars);
    }

    /** The choice between the four. */
    method AppendChars(mine: nat, chars: Bytes, total: nat)
      requires Valid() && mine == |Contents()| && total == mine + |chars| - 1 && total + 1 < UINT32
      requires chars != [] && chars[|chars| - 1] == 0
      modifies Repr()
      ensures Valid() && Contents() == old(Contents()) + chars[..|chars| - 1]
      ensures fresh(Repr() - old(Repr()))
      ensures if total < LEN then OnStack()
              else if old(OnStack()) then data.capacity == total + 1
              else if total < old(data.capacity) then data.capacity == old(data.capacity) && data.ptr == old(data.ptr)
              else data.capacity == Grown(old(data.capacity), total)
    {
      hide And, Grown;
      if OnStack() {
        if total < LEN {
          AppendOnStack(mine, chars, total);
        } else {
          LeaveStack(mine, chars, total);
        }
      } else {
        if data.capacity > total {
          AppendOnHeap(mine, chars, total);
        } else {
          GrowOnHeap(mine, chars, total);
        }
      }
    }

    /** `operator+=` with another string. */
    method Append(other: String)
      requires Valid() && other.Valid() && this != other && Repr() !! other.Repr()
      requires |Contents()| + |other.Contents()| + 1 < UINT32
      modifies Repr()
      ensures Valid() && Contents() == old(Contents()) + old(other.Contents())
      ensures other.Valid() && other.Contents() == old(other.Contents())
      ensures fresh(Repr() - old(Repr()))
      ensures var total := old(|Contents()| + |other.Contents()|);
              if total < LEN then OnStack()
              else if old(OnStack()) then data.capacity == total + 1
              else if total < old(data.capacity) then data.capacity == old(data.capacity) && data.ptr == old(data.ptr)
              else data.capacity == Grown(old(data.capacity), total)
    {
      hide And, Grown;
      var mine := Size();
      var others := other.Size();
      var chars := other.CStr(others);
      assert chars[..|chars| - 1] == other.Contents();
      AppendChars(mine, chars, mine + others);
    }

    /** `operator+`: a copy with the other string appended. */
    method Plus(other: String) returns (sum: String)
      requires Valid() && other.Valid()
      requires |Contents()| + |other.Contents()| + 1 < UINT32
      ensures fresh(sum) && sum.Valid() && sum.Contents() == Contents() + other.Contents()
    {
      hide And;
      sum := new String.Copy(this);
      sum.Append(other);
    }
  }
}
