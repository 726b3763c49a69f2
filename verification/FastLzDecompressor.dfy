/** The two FastLZ decoder bodies, writing an output array in place. */
module FastLzDecompressor {
  import opened Bytes
  import opened Lz77
  import opened FastLzFormat

  /** Each byte of `s` from `start` to `end` equals the one `d` places before it. */
  ghost predicate Repeats(s: seq<byte>, start: nat, end: nat, d: nat)
    requires d <= start <= end <= |s|
  {
    forall i :: start <= i < end ==> s[i] == s[i - d]
  }

  lemma RepeatsIsCopyBack(s: seq<byte>, t: seq<byte>, start: nat, end: nat, d: nat)
    requires 1 <= d <= start <= end <= |t| && SameOutside(s, t, start, end) && Repeats(t, start, end, d)
    ensures t[..end] == CopyBack(s[..start], d, end - start)
  {
    assert t[..end][..start] == s[..start];
    CopyBackUnique(s[..start], d, end - start, t[..end]);
  }

  /** The run form: the last byte again and again. */
  method FillRun(output: array<byte>, start: nat, len: nat)
    requires 1 <= start && start + len + 3 <= output.Length
    modifies output
    ensures output[..start + len + 3] == CopyBack(old(output[..start]), 1, len + 3)
    ensures SameOutside(old(output[..]), output[..], start, start + len + 3)
  {
    var b := output[start - 1];
    output[start] := b;
    output[start + 1] := b;
    output[start + 2] := b;
    var op: nat, left: nat := start + 3, len;
    while left > 0
      invariant op + left == start + len + 3
      invariant op <= output.Length
      invariant forall i :: start - 1 <= i < op ==> output[i] == b
      invariant SameOutside(old(output[..]), output[..], start, op)
    {
      output[op] := b;
      op, left := op + 1, left - 1;
    }
    RepeatsIsCopyBack(old(output[..]), output[..], start, op, 1);
    assert old(output[..])[..start] == old(output[..start]);
    assert output[..][..op] == output[..op];
  }

  method CopyByte(output: array<byte>, ghost start: nat, op: nat, ref: nat)
    requires ref < op < output.Length && op - ref <= start <= op
    requires Repeats(output[..], start, op, op - ref)
    modifies output
    ensures Repeats(output[..], start, op + 1, op - ref)
    ensures SameOutside(old(output[..]), output[..], op, op + 1)
  {
    output[op] := output[ref];
  }

  /** A 16-bit move reads both bytes before it writes either. */
  method CopyWord(output: array<byte>, ghost start: nat, q: nat, p: nat)
    requires p + 2 <= q && q + 2 <= output.Length && q - p <= start <= q
    requires Repeats(output[..], start, q, q - p)
    modifies output
    ensures Repeats(output[..], start, q + 2, q - p)
    ensures SameOutside(old(output[..]), output[..], q, q + 2)
  {
    output[q], output[q + 1] := output[p], output[p + 1];
  }

  /** The byte form. */
  method CopyBytes(output: array<byte>, start: nat, from: nat, len: nat)
    requires from < start && start + len + 3 <= output.Length
    modifies output
    ensures output[..start + len + 3] == CopyBack(old(output[..start]), start - from, len + 3)
    ensures SameOutside(old(output[..]), output[..], start, start + len + 3)
  {
    ghost var d := start - from;
    CopyByte(output, start, start, from);
    CopyByte(output, start, start + 1, from + 1);
    CopyByte(output, start, start + 2, from + 2);
    var op: nat, ref: nat, left: nat := start + 3, from + 3, len;
    while left > 0
      invariant op + left == start + len + 3 && op - ref == d && d <= start <= op <= output.Length
      invariant Repeats(output[..], start, op, d)
      invariant SameOutside(old(output[..]), output[..], start, op)
    {
      CopyByte(output, start, op, ref);
      op, ref, left := op + 1, ref + 1, left - 1;
    }
    RepeatsIsCopyBack(old(output[..]), output[..], start, op, d);
    assert old(output[..])[..start] == old(output[..start]);
    assert output[..][..op] == output[..op];
  }

  /** 16-bit moves, four at a time while more than four are left. */
  method MoveWords(output: array<byte>, ghost start: nat, q0: nat, p0: nat, count: nat)
    requires p0 + 2 <= q0 && q0 + 2 * count <= output.Length && q0 - p0 <= start <= q0
    requires Repeats(output[..], start, q0, q0 - p0)
    modifies output
    ensures Repeats(output[..], start, q0 + 2 * count, q0 - p0)
    ensures SameOutside(old(output[..]), output[..], q0, q0 + 2 * count)
  {
    ghost var d := q0 - p0;
    var q: nat, p: nat, words: nat := q0, p0, count;
    while words > 4
      invariant q + 2 * words == q0 + 2 * count && q - p == d && q0 <= q
      invariant Repeats(output[..], start, q, d)
      invariant SameOutside(old(output[..]), output[..], q0, q)
    {
      q, p := CopyFourWords(output, start, q, p);
      words := words - 4;
    }
    while words > 0
      invariant q + 2 * words == q0 + 2 * count && q - p == d && q0 <= q
      invariant Repeats(output[..], start, q, d)
      invariant SameOutside(old(output[..]), output[..], q0, q)
    {
      CopyWord(output, start, q, p);
      q, p, words := q + 2, p + 2, words - 1;
    }
  }

  /** The word form: three bytes, an odd byte, then 16-bit moves.
      It needs a distance of at least two: the word read must not reach into the word written. */
  method CopyWords(output: array<byte>, start: nat, from: nat, len: nat)
    requires from + 2 <= start && start + len + 3 <= output.Length
    modifies output
    ensures output[..start + len + 3] == CopyBack(old(output[..start]), start - from, len + 3)
    ensures SameOutside(old(output[..]), output[..], start, start + len + 3)
  {
    ghost var d := start - from;
    CopyByte(output, start, start, from);
    CopyByte(output, start, start + 1, from + 1);
    CopyByte(output, start, start + 2, from + 2);
    var op: nat, ref: nat, left: nat := start + 3, from + 3, len;
    if left % 2 == 1 {
      CopyByte(output, start, op, ref);
      op, ref, left := op + 1, ref + 1, left - 1;
    }
    MoveWords(output, start, op, ref, left / 2);
    op := op + left;
    RepeatsIsCopyBack(old(output[..]), output[..], start, op, d);
    assert old(output[..])[..start] == old(output[..start]);
    assert output[..][..op] == output[..op];
  }

  method CopyFourWords(output: array<byte>, ghost start: nat, q: nat, p: nat) returns (q': nat, p': nat)
    requires p + 2 <= q && q + 8 <= output.Length && q - p <= start <= q
    requires Repeats(output[..], start, q, q - p)
    modifies output
    ensures q' == q + 8 && p' == p + 8
    ensures Repeats(output[..], start, q', q - p)
    ensures SameOutside(old(output[..]), output[..], q, q')
  {
    CopyWord(output, start, q, p);
    CopyWord(output, start, q + 2, p + 2);
    CopyWord(output, start, q + 4, p + 4);
    CopyWord(output, start, q + 6, p + 6);
    q', p' := q + 8, p + 8;
  }

  /** Copies a match of `len + 3` bytes found `back + 1` bytes before the write cursor. */
  method CopyMatch(words: bool, output: array<byte>, op: nat, back: nat, len: nat)
    requires back + 1 <= op && op + len + 3 <= output.Length
    modifies output
    ensures output[..op + len + 3] == CopyBack(old(output[..op]), back + 1, len + 3)
    ensures SameOutside(old(output[..]), output[..], op, op + len + 3)
  {
    var ref := op - back;
    if ref == op {
      FillRun(output, op, len);
    } else if words {
      CopyWords(output, op, ref - 1, len);
    } else {
      CopyBytes(output, op, ref - 1, len);
    }
  }

  /** Reads what follows a control byte that announces a match. */
  method ParseMatch(level: Level, input: array<byte>, start: nat, ctrl: byte) returns (len: nat, back: nat, ip: nat)
    requires ctrl >= 32 && start <= input.Length && ReadMatch(level, input[..], start, ctrl).Some?
    ensures ReadMatch(level, input[..], start, ctrl) == Some(MatchHead(len, back, ip))
  {
    ip := start;
    len := ctrl / 32 - 1;
    var ofs: nat := ctrl % 32 * 256;
    match level
    case Level1 =>
      if len == 6 {
        len := len + input[ip];
        ip := ip + 1;
      }
      back := ofs + input[ip];
      ip := ip + 1;
    case Level2 =>
      if len == 6 {
        len, ip := ParseChain(input, ip, len);
      }
      var code := input[ip];
      ip := ip + 1;
      back := ofs + code;
      if code == 255 && ofs == 31 * 256 {
        ofs := (input[ip] as nat) * 256;
        ofs := ofs + input[ip + 1];
        ip := ip + 2;
        back := ofs + MAX_DISTANCE2;
      }
  }

  method ParseChain(input: array<byte>, start: nat, len0: nat) returns (len: nat, ip: nat)
    requires start <= input.Length && ReadChain(input[..], start).Some?
    ensures ReadChain(input[..], start) == Some((len - len0, ip))
  {
    len, ip := len0, start;
    ghost var m := input[..];
    var code: byte := 255;
    while code == 255
      invariant ip <= input.Length && len >= len0
      invariant if code == 255
        then ReadChain(m, ip).Some?
          && ReadChain(m, start) == Some((len - len0 + ReadChain(m, ip).value.0, ReadChain(m, ip).value.1))
        else ReadChain(m, start) == Some((len - len0, ip))
      decreases code == 255, input.Length - ip
    {
      code := input[ip];
      ip, len := ip + 1, len + code;
    }
  }

  method CopyLiterals(input: array<byte>, output: array<byte>, from: nat, to: nat, count: nat)
    requires input != output && 1 <= count && from + count <= input.Length && to + count <= output.Length
    modifies output
    ensures output[..to + count] == old(output[..to]) + input[from..from + count]
    ensures SameOutside(old(output[..]), output[..], to, to + count)
  {
    var ip: nat, op: nat := from, to;
    output[op] := input[ip];
    ip, op := ip + 1, op + 1;
    var left: nat := count - 1;
    while left > 0
      invariant ip - from == op - to == count - left && 0 <= left < count
      invariant forall i :: to <= i < op ==> output[i] == input[from + (i - to)]
      invariant SameOutside(old(output[..]), output[..], to, op)
    {
      output[op] := input[ip];
      ip, op, left := ip + 1, op + 1, left - 1;
    }
    assert forall i :: 0 <= i < to ==> output[i] == old(output[..])[i];
  }

  /** One decoder body for both levels; `words` selects the build that copies 16 bits at a time.
      The caller must make readable whatever the decoder reads. */
  method Decompress(level: Level, words: bool, input: array<byte>, length: nat, output: array<byte>, maxout: nat)
    returns (r: nat)
    requires input != output && length <= input.Length && maxout <= output.Length
    requires Decode(level, input[..], length, maxout) != Overrun
    modifies output
    ensures match Decode(level, input[..], length, maxout)
            case Done(out) => r == |out| && output[..r] == out
            case _ => r == 0
    ensures SameOutside(old(output[..]), output[..], 0, maxout)
  {
    hide CopyBack, ReadMatch, DecodeFrom;
    ghost var m := input[..];
    ghost var result := Decode(level, m, length, maxout);
    var ip: nat, op: nat := 1, 0;
    var ctrl: byte := input[0] % 32;
    var loop := true;
    while loop
      invariant op <= maxout && ip <= input.Length
      invariant input[..] == m
      invariant loop ==> DecodeFrom(level, m, length, maxout, ip, ctrl, output[..op]) == result
      invariant !loop ==> result == Done(output[..op])
      invariant SameOutside(old(output[..]), output[..], 0, maxout)
      decreases loop, length - ip
    {
      if ctrl >= 32 {
        PassIsMatch(level, m, length, maxout, ip, ctrl, output[..op]);
        var len, back, next := ParseMatch(level, input, ip, ctrl);
        if op + len + 3 > maxout {
          return 0;
        }
        if op - back - 1 < 0 {
          return 0;
        }
        ip := next;
        if ip < length {
          ctrl := input[ip];
          ip := ip + 1;
        } else {
          loop := false;
        }
        CopyMatch(words, output, op, back, len);
        op := op + len + 3;
      } else {
        PassIsLiteral(level, m, length, maxout, ip, ctrl, output[..op]);
        var count := ctrl + 1;
        if op + count > maxout {
          return 0;
        }
        if ip + count > length {
          return 0;
        }
        CopyLiterals(input, output, ip, op, count);
        ip, op := ip + count, op + count;
        loop := ip < length;
        if loop {
          ctrl := input[ip];
          ip := ip + 1;
        }
      }
    }
    r := op;
  }

  /** The decoder's pass when the control byte announces a match. */
  lemma PassIsMatch(level: Level, m: seq<byte>, n: nat, maxout: nat, ip: nat, ctrl: byte, out: seq<byte>)
    requires n <= |m| && ctrl >= 32 && DecodeFrom(level, m, n, maxout, ip, ctrl, out) != Overrun
    ensures ReadMatch(level, m, ip, ctrl).Some?
    ensures (var h := ReadMatch(level, m, ip, ctrl).value;
             DecodeFrom(level, m, n, maxout, ip, ctrl, out)
               == if |out| + h.len + 3 > maxout || h.back + 1 > |out| then Corrupt
                  else if h.next < n then
                    DecodeFrom(level, m, n, maxout, h.next + 1, m[h.next], CopyBack(out, h.back + 1, h.len + 3))
                  else Done(CopyBack(out, h.back + 1, h.len + 3)))
  {
    hide ReadMatch, CopyBack;
  }

  lemma PassIsLiteral(level: Level, m: seq<byte>, n: nat, maxout: nat, ip: nat, ctrl: byte, out: seq<byte>)
    requires n <= |m| && ctrl < 32
    ensures (var count := ctrl as nat + 1;
             DecodeFrom(level, m, n, maxout, ip, ctrl, out)
               == if |out| + count > maxout || ip + count > n then Corrupt
                  else if ip + count < n then
                    DecodeFrom(level, m, n, maxout, ip + count + 1, m[ip + count], out + m[ip..ip + count])
                  else Done(out + m[ip..ip + count]))
  {
  }
}
