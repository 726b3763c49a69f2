/** The meaning of an LZ77 token list, independent of how tokens are written as bytes. */
module Lz77 {
  import opened Bytes

  datatype Token = Literal(bytes: seq<byte>) | Match(distance: nat, length: nat)

  /** `out` extended by `n` bytes, each equal to the byte `d` places before it. */
  function CopyBack(out: seq<byte>, d: nat, n: nat): (r: seq<byte>)
    requires 1 <= d <= |out|
    ensures |r| == |out| + n
    ensures out <= r
    ensures forall i :: |out| <= i < |r| ==> r[i] == r[i - d]
  {
    if n == 0 then out
    else
      var r := CopyBack(out, d, n - 1);
      r + [r[|r| - d]]
  }

  /** The LZ77 equation determines the result. */
  lemma {:induction false} CopyBackUnique(out: seq<byte>, d: nat, n: nat, r: seq<byte>)
    requires 1 <= d <= |out|
    requires |r| == |out| + n && out <= r
    requires forall i :: |out| <= i < |r| ==> r[i] == r[i - d]
    ensures r == CopyBack(out, d, n)
  {
    if n == 0 {
    } else {
      var r' := r[..|r| - 1];
      assert out <= r';
      CopyBackUnique(out, d, n - 1, r');
      assert r == r' + [r[|r| - 1]];
      assert r[|r| - 1] == r[|r| - 1 - d] == r'[|r'| - d];
    }
  }

  /** What one token does to the text produced so far; a match that reaches before the start does nothing. */
  function Apply(out: seq<byte>, t: Token): (r: seq<byte>)
    ensures out <= r
  {
    match t
    case Literal(bytes) => out + bytes
    case Match(d, n) => if 1 <= d <= |out| then CopyBack(out, d, n) else out
  }

  function Expand(ts: seq<Token>): seq<byte>
  {
    if ts == [] then [] else Apply(Expand(ts[..|ts| - 1]), ts[|ts| - 1])
  }

  lemma ExpandSnoc(ts: seq<Token>, t: Token)
    ensures Expand(ts + [t]) == Apply(Expand(ts), t)
  {
    assert (ts + [t])[..|ts|] == ts;
  }

  lemma {:induction false} ExpandPrefix(ts: seq<Token>, k: nat)
    requires k <= |ts|
    ensures Expand(ts[..k]) <= Expand(ts)
    decreases |ts|
  {
    if k < |ts| {
      ExpandPrefix(ts[..|ts| - 1], k);
      assert ts[..|ts| - 1][..k] == ts[..k];
    } else {
      assert ts[..k] == ts;
    }
  }

  /** Text that repeats itself `d` back is what the match token produces. */
  lemma MatchReproduces(x: seq<byte>, at: nat, d: nat, n: nat)
    requires 1 <= d <= at && at + n <= |x|
    requires forall i :: at <= i < at + n ==> x[i] == x[i - d]
    ensures Apply(x[..at], Match(d, n)) == x[..at + n]
  {
    CopyBackUnique(x[..at], d, n, x[..at + n]);
  }
}
