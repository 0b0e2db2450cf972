/** LZ4_uncompress and LZ4_uncompress_unknownOutputSize. */
module Lz4Decode {
  import opened Common
  import opened Lz4Format
  import opened Lz4Copy

  /** What a decoder's return value and output buffer say about its outcome. There is no
      return value to speak of once a length has overflowed. */
  ghost predicate Reports(o: Outcome, ret: Option<int>, success: int, dst: seq<byte>) {
    match o
    case Done(_, out, exact) => ret == Some(Int32(success)) && (exact ==> out <= dst)
    case Fault(pos) => ret == Some(Int32(0 - pos))
    case Overflow => ret == None
  }

  /** LZ4_WILDCOPY of literals into the output; the words read may run past the
      literals, and past the end of the source. */
  method WildCopyLiterals(src: seq<byte>, ip0: nat, dst: array<byte>, op0: nat, cpy: nat)
    requires op0 <= cpy && cpy + COPYLENGTH <= dst.Length
    modifies dst
    ensures dst[..cpy] == old(dst[..op0]) + PeekSlice(src, ip0, cpy - op0)
  {
    var ip, op := ip0, op0;
    while true
      invariant op0 <= op <= cpy && ip - ip0 == op - op0
      invariant forall j :: 0 <= j < op0 ==> dst[j] == old(dst[j])
      invariant forall j :: op0 <= j < op ==> dst[j] == Peek(src, ip0 + (j - op0))
      decreases cpy - op
    {
      forall k | 0 <= k < 8 {
        dst[op + k] := Peek(src, ip + k);
      }
      ip, op := ip + 8, op + 8;
      if op >= cpy {
        break;
      }
    }
    assert dst[..cpy] == old(dst[..op0]) + PeekSlice(src, ip0, cpy - op0);
  }

  /** memcpy of the last literals. */
  method CopyTail(src: seq<byte>, ip: nat, dst: array<byte>, op: nat, n: nat)
    requires op + n <= dst.Length
    modifies dst
    ensures dst[..op + n] == old(dst[..op]) + PeekSlice(src, ip, n)
  {
    forall k | 0 <= k < n {
      dst[op + k] := Peek(src, ip + k);
    }
  }

  method CopyTailWithin(src: seq<byte>, ip: nat, dst: array<byte>, op: nat, n: nat)
    requires op + n <= dst.Length && ip + n <= |src|
    modifies dst
    ensures dst[..op + n] == old(dst[..op]) + src[ip..ip + n]
  {
    forall k | 0 <= k < n {
      dst[op + k] := src[ip + k];
    }
  }

  /** The known-size decoder computes DecodeKnown on every source, and writes nowhere but
      into `dst`, up to a length that overflows. */
  method Uncompress(src: seq<byte>, dst: array<byte>) returns (ret: Option<int>)
    modifies dst
    ensures var o := DecodeKnown(src, 0, [], true, dst.Length);
      Reports(o, ret, if o.Done? then o.consumed else 0, dst[..])
  {
    var ip, op := 0, 0;
    ghost var out: seq<byte>, exact := [], true;
    while true
      invariant |out| == op <= dst.Length
      invariant exact ==> dst[..op] == out
      invariant DecodeKnown(src, ip, out, exact, dst.Length) == DecodeKnown(src, 0, [], true, dst.Length)
      decreases dst.Length - op
    {
      ghost var step := KnownStep(src, ip, out, exact, dst.Length);
      var stop;
      stop, ret, ip, op := UncompressTurn(src, ip, dst, op, out, exact);
      if stop {
        return;
      }
      out, exact := step.out, step.exact;
    }
  }

  /** One turn of the main loop of LZ4_uncompress. */
  method UncompressTurn(src: seq<byte>, ip0: nat, dst: array<byte>, op0: nat, ghost out: seq<byte>, ghost exact: bool)
    returns (stop: bool, ret: Option<int>, ip: nat, op: nat)
    requires |out| == op0 <= dst.Length
    requires exact ==> dst[..op0] == out
    modifies dst
    ensures match KnownStep(src, ip0, out, exact, dst.Length)
      case Stop(o) => stop && Reports(o, ret, if o.Done? then o.consumed else 0, dst[..])
      case Next(ip', out', exact') =>
        !stop && ip == ip' && op == |out'| && (exact' ==> dst[..op] == out')
  {
    hide KnownMatch, ReadLength, PeekSlice;
    ip, op := ip0, op0;
    stop, ret := true, None;

    // how many literals come first
    var token := Peek(src, ip);
    ip := ip + 1;
    var fits, length;
    fits, length, ip := ReadRun(src, token / 16, ip);
    if !fits {
      return;
    }

    // the literals, exactly where an end is near and by whole words elsewhere
    var cpy := op + length;
    if cpy > dst.Length - COPYLENGTH {
      if cpy > dst.Length {
        ret := Some(Int32(0 - ip));
        return;
      }
      CopyTail(src, ip, dst, op, length);
      ip := ip + length;
      ret := Some(Int32(ip));
      return;
    }
    WildCopyLiterals(src, ip, dst, op, cpy);
    ip, op := ip + length, cpy;

    stop, ret, ip, op := UncompressMatch(src, ip, token % 16, dst, op, out + PeekSlice(src, ip - length, length), exact);
  }

  /** The second half of a turn: offset, match length and match copy. */
  method UncompressMatch(src: seq<byte>, ip0: nat, nibble: nat, dst: array<byte>, op0: nat, ghost out: seq<byte>, ghost exact: bool)
    returns (stop: bool, r: Option<int>, ip: nat, op: nat)
    requires |out| == op0 && op0 + COPYLENGTH <= dst.Length && nibble < 16
    requires exact ==> dst[..op0] == out
    modifies dst
    ensures match KnownMatch(src, ip0, nibble, out, exact, dst.Length)
      case Stop(o) => stop && Reports(o, r, if o.Done? then o.consumed else 0, dst[..])
      case Next(ip', out', exact') =>
        !stop && ip == ip' && op == |out'| && (exact' ==> dst[..op] == out')
  {
    hide CopyMatch, ReadLength;
    ip, op := ip0, op0;
    stop, r := true, None;

    // how far back the match lies
    var offset := U16(Peek(src, ip), Peek(src, ip + 1));
    ip := ip + 2;
    if op < offset {
      r := Some(Int32(0 - ip));
      return;
    }

    // how long it is, less the minimum
    var fits, length;
    fits, length, ip := ReadRun(src, nibble, ip);
    if !fits {
      return;
    }

    // the match, from what has just been written
    var ok;
    ok, op := CopyRepeated(dst, op, offset, length);
    if !ok {
      r := Some(Int32(0 - ip));
      return;
    }
    if op == dst.Length {
      r := Some(Int32(ip));
      return;
    }
    stop := false;
  }

  /** A length from its nibble on; a saturated one is added up in an int, and fits or the
      sum overflows. */
  method ReadRun(src: seq<byte>, nibble: nat, ip0: nat) returns (fits: bool, length: nat, ip: nat)
    requires nibble < 16
    ensures fits <==> ReadLength(src, nibble, ip0).0 < INT_LIMIT
    ensures fits ==> (length, ip) == ReadLength(src, nibble, ip0)
  {
    fits, length, ip := true, nibble, ip0;
    if nibble == RUN_MASK {
      while Peek(src, ip) == 255
        invariant ip0 <= ip && length < INT_LIMIT
        invariant var (n, q) := ReadExtension(src, ip); ReadLength(src, 15, ip0) == (length + n, q)
        decreases |src| - ip
      {
        if length + 255 >= INT_LIMIT {
          return false, length, ip;
        }
        length, ip := length + 255, ip + 1;
      }
      length, ip := length + Peek(src, ip), ip + 1;
      fits := length < INT_LIMIT;
    }
  }

  /** As WildCopyLiterals, with enough source left that no word read leaves it. */
  method WildCopyWithin(src: seq<byte>, ip0: nat, dst: array<byte>, op0: nat, cpy: nat)
    requires op0 <= cpy && cpy + COPYLENGTH <= dst.Length
    requires ip0 + (cpy - op0) + COPYLENGTH <= |src|
    modifies dst
    ensures dst[..cpy] == old(dst[..op0]) + src[ip0..ip0 + (cpy - op0)]
  {
    var ip, op := ip0, op0;
    while true
      invariant op0 <= op <= cpy && ip - ip0 == op - op0
      invariant forall j :: 0 <= j < op0 ==> dst[j] == old(dst[j])
      invariant forall j :: op0 <= j < op ==> dst[j] == src[ip0 + (j - op0)]
      decreases cpy - op
    {
      forall k | 0 <= k < 8 {
        dst[op + k] := src[ip + k];
      }
      ip, op := ip + 8, op + 8;
      if op >= cpy {
        break;
      }
    }
    assert dst[..cpy] == old(dst[..op0]) + src[ip0..ip0 + (cpy - op0)];
  }

  /** As ReadRun, stopping at the end of the input. */
  method ReadBoundedRun(src: seq<byte>, nibble: nat, ip0: nat) returns (fits: bool, length: nat, ip: nat)
    requires ip0 <= |src| && nibble < 16
    ensures fits <==> ReadBoundedLength(src, nibble, ip0).0 < INT_LIMIT
    ensures fits ==> (length, ip) == ReadBoundedLength(src, nibble, ip0)
  {
    fits, length, ip := true, nibble, ip0;
    if nibble == RUN_MASK {
      var s := 255;
      while ip < |src| && s == 255
        invariant ip0 <= ip <= |src| && length < INT_LIMIT
        invariant s == 255 ==> var (n, q) := ReadBoundedExtension(src, ip); ReadBoundedLength(src, 15, ip0) == (length + n, q)
        invariant s != 255 ==> ReadBoundedLength(src, 15, ip0) == (length, ip)
      {
        s := src[ip];
        ip := ip + 1;
        if length + s >= INT_LIMIT {
          return false, length, ip;
        }
        length := length + s;
      }
    }
  }

  /** The bounded decoder computes DecodeBounded on every input, and reads nowhere but
      from `src` and writes nowhere but into `dst`, up to a length that overflows. */
  method UncompressUnknownOutputSize(src: seq<byte>, dst: array<byte>) returns (ret: Option<int>)
    modifies dst
    ensures var o := DecodeBounded(src, 0, [], true, dst.Length);
      Reports(o, ret, if o.Done? then |o.out| else 0, dst[..])
  {
    var ip, op := 0, 0;
    ghost var out: seq<byte>, exact := [], true;
    while ip < |src|
      invariant ip <= |src| && |out| == op <= dst.Length
      invariant exact ==> dst[..op] == out
      invariant DecodeBounded(src, ip, out, exact, dst.Length) == DecodeBounded(src, 0, [], true, dst.Length)
      decreases |src| - ip
    {
      ghost var step := BoundedStep(src, ip, out, exact, dst.Length);
      var stop;
      stop, ret, ip, op := UncompressBoundedTurn(src, ip, dst, op, out, exact);
      if stop {
        return;
      }
      out, exact := step.out, step.exact;
    }
    ret := Some(Int32(op));
  }

  /** One turn of the main loop of LZ4_uncompress_unknownOutputSize. */
  method UncompressBoundedTurn(src: seq<byte>, ip0: nat, dst: array<byte>, op0: nat, ghost out: seq<byte>, ghost exact: bool)
    returns (stop: bool, ret: Option<int>, ip: nat, op: nat)
    requires ip0 < |src| && |out| == op0 <= dst.Length
    requires exact ==> dst[..op0] == out
    modifies dst
    ensures match BoundedStep(src, ip0, out, exact, dst.Length)
      case Stop(o) => stop && Reports(o, ret, if o.Done? then |o.out| else 0, dst[..])
      case Next(ip', out', exact') =>
        !stop && ip == ip' && op == |out'| && (exact' ==> dst[..op] == out')
  {
    hide BoundedMatch, ReadBoundedLength;
    ip, op := ip0, op0;
    stop, ret := true, None;

    // how many literals come first
    var token := src[ip];
    ip := ip + 1;
    var fits, length;
    fits, length, ip := ReadBoundedRun(src, token / 16, ip);
    if !fits {
      return;
    }

    // the literals, exactly where an end is near and by whole words elsewhere
    var cpy := op + length;
    if cpy > dst.Length - COPYLENGTH || ip + length > |src| - COPYLENGTH {
      if cpy > dst.Length {
        ret := Some(Int32(0 - ip));
        return;
      }
      if ip + length > |src| {
        ret := Some(Int32(0 - ip));
        return;
      }
      CopyTailWithin(src, ip, dst, op, length);
      ip, op := ip + length, op + length;
      if ip < |src| {
        ret := Some(Int32(0 - ip));
      } else {
        ret := Some(Int32(op));
      }
      return;
    }
    WildCopyWithin(src, ip, dst, op, cpy);
    ip, op := ip + length, cpy;

    stop, ret, ip, op := UncompressBoundedMatch(src, ip, token % 16, dst, op, out + src[ip - length..ip], exact);
  }

  /** The second half of a turn: offset, match length and match copy. */
  method UncompressBoundedMatch(src: seq<byte>, ip0: nat, nibble: nat, dst: array<byte>, op0: nat, ghost out: seq<byte>, ghost exact: bool)
    returns (stop: bool, r: Option<int>, ip: nat, op: nat)
    requires |out| == op0 && op0 + COPYLENGTH <= dst.Length && ip0 + 2 <= |src| && nibble < 16
    requires exact ==> dst[..op0] == out
    modifies dst
    ensures match BoundedMatch(src, ip0, nibble, out, exact, dst.Length)
      case Stop(o) => stop && Reports(o, r, if o.Done? then |o.out| else 0, dst[..])
      case Next(ip', out', exact') =>
        !stop && ip == ip' && op == |out'| && (exact' ==> dst[..op] == out')
  {
    hide CopyMatch, ReadBoundedLength;
    ip, op := ip0, op0;
    stop, r := true, None;

    // how far back the match lies
    var offset := U16(src[ip], src[ip + 1]);
    ip := ip + 2;
    if op < offset {
      r := Some(Int32(0 - ip));
      return;
    }

    // how long it is, less the minimum
    var fits, length;
    fits, length, ip := ReadBoundedRun(src, nibble, ip);
    if !fits {
      return;
    }

    // the match, from what has just been written
    var ok;
    ok, op := CopyRepeated(dst, op, offset, length);
    if !ok {
      r := Some(Int32(0 - ip));
      return;
    }
    if op == dst.Length {
      r := Some(Int32(op));
      return;
    }
    stop := false;
  }
}
