/** Pools of byte slices.  A pooled slice keeps whatever bytes its last user left in it. */
module Buffers {
  import opened Options
  import opened Text
  import Base64

  /** A slice: its length and its backing array, whose length is the capacity. */
  class ByteSlice {
    var buf: array<char>
    var len: nat

    constructor (n: nat)
      ensures fresh(buf) && buf.Length == n && len == n
    {
      buf, len := new char[n], n;
    }
  }

  class BytesPool {
    const max: nat
    var free: set<ByteSlice>
    /** The slices handed out and not yet returned; and everything the pool may hand out. */
    ghost var lent: set<ByteSlice>
    ghost var repr: set<object>

    ghost predicate Valid()
      reads this, repr
    {
      && this in repr && free !! lent
      && (forall s: ByteSlice :: s in free + lent ==> s in repr && s.buf in repr)
      && (forall s :: s in free ==> s.len == 0 && s.buf.Length <= max)
      && (forall s, t :: s in free + lent && t in free + lent && s != t ==> s.buf != t.buf)
    }

    constructor (max: nat)
      ensures Valid() && free == {} && lent == {} && this.max == max && fresh(repr)
    {
      this.max, free, lent, repr := max, {}, {}, {this};
    }

    /** A slice of n bytes.  Nothing is promised about what the bytes are. */
    method GetN(n: nat) returns (b: ByteSlice)
      requires Valid()
      modifies repr
      ensures Valid() && b !in old(lent) && lent == old(lent) + {b}
      ensures free <= old(free) && b.len == n <= b.buf.Length
      ensures old(repr) <= repr && fresh(repr - old(repr)) && (b in old(free) || fresh(b))
    {
      var forgotten: bool := *;
      if forgotten || free == {} {
        b := new ByteSlice(n);
      } else {
        b :| b in free;
        free := free - {b};
        if b.buf.Length < n {
          b.buf := new char[n];
        }
        b.len := n;
      }
      lent := lent + {b};
      repr := repr + {b, b.buf};
    }

    /** Takes a lent slice back; one that has grown too large is dropped. */
    method Put(b: ByteSlice)
      requires Valid() && b in lent
      modifies this, b
      ensures Valid() && lent == old(lent) - {b} && repr == old(repr)
      ensures free == if old(b.buf).Length > max then old(free) else old(free) + {b}
    {
      lent := lent - {b};
      if b.buf.Length > max {
        b.buf, b.len := new char[0], 0;
        return;
      }
      b.len := 0;
      free := free + {b};
    }
  }

  /** base64's Encode into a buffer. */
  method EncodeInto(dst: array<char>, raw: string)
    requires Bytes(raw) && Base64.EncodedLen(|raw|) <= dst.Length
    modifies dst
    ensures dst[..Base64.EncodedLen(|raw|)] == Base64.Encode(raw)
  {
    var text := Base64.Encode(raw);
    CopyInto(dst, text);
    assert dst[..|text|] == text;
  }

  /** base64's Decode into a buffer: how many bytes it wrote, or that the text is bad. */
  method DecodeInto(dst: array<char>, text: string) returns (n: Option<nat>)
    requires Base64.DecodedLen(|text|) <= dst.Length
    modifies dst
    ensures n.Some? <==> Base64.Decode(text).Some?
    ensures n.Some? ==> n.value <= dst.Length && dst[..n.value] == Base64.Decode(text).value
  {
    var raw := Base64.Decode(text);
    Base64.DecodeFits(text);
    if raw.None? {
      return None;
    }
    CopyInto(dst, raw.value);
    return Some(|raw.value|);
  }

  method CopyInto(dst: array<char>, s: string)
    requires |s| <= dst.Length
    modifies dst
    ensures dst[..|s|] == s && forall i :: |s| <= i < dst.Length ==> dst[i] == old(dst[i])
  {
    for i := 0 to |s|
      invariant dst[..i] == s[..i]
      invariant forall k :: |s| <= k < dst.Length ==> dst[k] == old(dst[k])
    {
      dst[i] := s[i];
    }
    assert s[..|s|] == s;
  }
}
