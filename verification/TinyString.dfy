/** TiXmlString: a string in a buffer that grows. */
module TinyString {
  import opened Sequences

  /** size bytes, a terminator, and room for capacity bytes and the terminator. */
  class Rep {
    var size: nat
    const capacity: nat
    const str: array<char>

    ghost predicate Valid()
      reads this, str
    {
      size <= capacity && str.Length == capacity + 1 && str[size] == '\0'
    }

    /** init(sz, cap): the bytes are not set, the terminator is. */
    constructor (sz: nat, cap: nat)
      requires sz <= cap
      ensures Valid() && size == sz && capacity == cap && fresh(str)
    {
      capacity := cap;
      size := sz;
      var a := new char[cap + 1];
      a[sz] := '\0';
      str := a;
    }
  }

  /** memcpy and memmove: the source is a value, so it does not overlap the buffer. */
  method MemMove(dest: array<char>, at: nat, src: string)
    requires at + |src| <= dest.Length
    modifies dest
    ensures dest[..] == old(dest[..at]) + src + old(dest[at + |src|..])
  {
    forall i | 0 <= i < |src| {
      dest[at + i] := src[i];
    }
  }

  const NPOS := -1

  class String {
    var rep: Rep
    ghost var copied: nat  // how many bytes reserve has copied so far

    ghost predicate Valid()
      reads this, rep, rep.str
    {
      rep.Valid()
    }

    ghost function Contents(): string
      requires Valid()
      reads this, rep, rep.str
    {
      rep.str[..rep.size]
    }

    /** What holds over any run of appends to a new string. */
    ghost predicate Amortised()
      reads this, rep
    {
      copied <= rep.capacity <= 2 * rep.size
    }

    constructor ()
      ensures Valid() && Contents() == "" && Amortised() && copied == 0
      ensures fresh(rep) && fresh(rep.str) && rep.capacity == 0 && rep.size == 0
    {
      rep := new Rep(0, 0);
      copied := 0;
    }

    method Data() returns (s: string)
      requires Valid()
      ensures s == Contents() && |s| == rep.size
    {
      s := rep.str[..rep.size];
    }

    method SetSize(sz: nat)
      requires rep.str.Length == rep.capacity + 1 && sz <= rep.capacity
      modifies rep, rep.str
      ensures Valid() && rep.size == sz && rep.str[..sz] == old(rep.str[..sz])
    {
      rep.size := sz;
      rep.str[sz] := '\0';
    }

    /** Makes room, and never gives room up. */
    method Reserve(cap: nat)
      requires Valid()
      modifies this
      ensures Valid() && Contents() == old(Contents()) && rep.size == old(rep.size)
      ensures cap <= rep.capacity && rep.capacity == if cap > old(rep.capacity) then cap else old(rep.capacity)
      ensures copied == old(copied) + if cap > old(rep.capacity) then old(rep.size) else 0
      ensures if cap > old(rep.capacity) then fresh(rep) && fresh(rep.str) else rep == old(rep)
    {
      if cap > rep.capacity {
        var tmp := new Rep(rep.size, cap);
        MemMove(tmp.str, 0, rep.str[..rep.size]);
        copied := copied + rep.size;
        rep := tmp;
      }
    }

    /** Takes a new buffer if the old one is too small or much too large. */
    method Assign(str: string)
      requires Valid()
      modifies this, rep, rep.str
      ensures Valid() && Contents() == str && rep.capacity <= 3 * (|str| + 8)
      ensures rep == old(rep) || (fresh(rep) && fresh(rep.str))
      ensures copied == old(copied)
    {
      var cap, len := rep.capacity, |str|;
      if len > cap || cap > 3 * (len + 8) {
        var tmp := new Rep(len, len);
        MemMove(tmp.str, 0, str);
        rep := tmp;
      } else {
        MemMove(rep.str, 0, str);
        SetSize(len);
      }
    }

    /** Appends a string that is not part of this one. */
    method Append(str: string)
      requires Valid()
      modifies this, rep, rep.str
      ensures Valid() && Contents() == old(Contents()) + str
      ensures old(Amortised()) ==> Amortised()
      ensures old(rep.size) + |str| <= old(rep.capacity) ==> rep == old(rep) && copied == old(copied)
      ensures rep.size == old(rep.size) + |str|
      ensures rep == old(rep) || (fresh(rep) && fresh(rep.str))
    {
      var newSize := rep.size + |str|;
      if newSize > rep.capacity {
        Reserve(newSize + rep.capacity);
      }
      AppendInRoom(str);
    }

    method AppendInRoom(str: string)
      requires Valid() && rep.size + |str| <= rep.capacity
      modifies rep, rep.str
      ensures Valid() && Contents() == old(Contents()) + str && rep.size == old(rep.size) + |str|
    {
      var newSize := rep.size + |str|;
      MemMove(rep.str, rep.size, str);
      assert rep.str[..newSize] == old(Contents()) + str;
      SetSize(newSize);
    }

    /** The first occurrence from an offset on, as far as the first NUL behind the offset. */
    method Find(toFind: char, offset: nat) returns (at: int)
      requires Valid()
      ensures toFind == '\0' ==> at == NPOS
      ensures at == NPOS || offset <= at < rep.size
      ensures at != NPOS ==>
        Contents()[at] == toFind && toFind !in Contents()[offset..at] && '\0' !in Contents()[offset..at]
      ensures at == NPOS ==>
        offset >= rep.size ||
        exists end :: offset <= end <= rep.size && toFind !in Contents()[offset..end] &&
          (end == rep.size || Contents()[end] == '\0')
    {
      if offset >= rep.size {
        return NPOS;
      }
      var p := offset;
      while rep.str[p] != '\0'
        invariant offset <= p <= rep.size && toFind !in Contents()[offset..p] && '\0' !in Contents()[offset..p]
        decreases rep.size - p
      {
        if rep.str[p] == toFind {
          return p;
        }
        p := p + 1;
      }
      return NPOS;
    }
  }

  /**
   Any run of appends to a new string: the contents are the pieces in order, reserve has copied at most
   twice as many bytes as were appended, and the buffer is at most twice as large as the string.
   */
  method AppendAll(pieces: seq<string>) returns (s: String)
    ensures fresh(s) && s.Valid() && s.Contents() == Concat(pieces)
    ensures s.copied <= 2 * |Concat(pieces)| && s.rep.capacity <= 2 * |Concat(pieces)|
  {
    s := new String();
    for i := 0 to |pieces|
      invariant fresh(s) && fresh(s.rep) && fresh(s.rep.str) && s.Valid() && s.Amortised()
      invariant s.Contents() == Concat(pieces[..i])
    {
      s.Append(pieces[i]);
      assert pieces[..i + 1][..i] == pieces[..i];
    }
    assert pieces[..|pieces|] == pieces;
  }

  /** operator +: one buffer of the right size, and nothing is copied twice. */
  method Plus(a: String, b: String) returns (tmp: String)
    requires a.Valid() && b.Valid()
    ensures fresh(tmp) && tmp.Valid() && tmp.Contents() == old(a.Contents() + b.Contents())
    ensures tmp.copied == 0 && tmp.rep.capacity == old(|a.Contents()| + |b.Contents()|)
  {
    hide String.Valid, String.Amortised;
    var x := a.Data();
    var y := b.Data();
    tmp := new String();
    tmp.Reserve(|x| + |y|);
    tmp.Append(x);
    tmp.Append(y);
    assert "" + x + y == x + y;
  }
}
