/** The two FastLZ compressor bodies, writing an output array in place. */
module FastLzCompressor {
  import opened Bytes
  import opened Lz77
  import opened FastLzFormat
  import opened FastLzHash
  import opened FastLzCompress
  import opened FastLzRoundTrip

  /** Where the write cursor may get to for `n` input bytes. */
  function Room(n: nat): nat
  {
    n + n / 32 + 1
  }

  // ------------------------------------------------------------------ writing

  method Emit(output: array<byte>, op: nat, b: byte) returns (op': nat)
    requires op < output.Length
    modifies output
    ensures op' == op + 1
    ensures output[..op'] == old(output[..op]) + [b]
    ensures SameOutside(old(output[..]), output[..], op, op')
  {
    output[op] := b;
    op' := op + 1;
  }

  /** The length bytes after a level 2 head: 255 while that much is left, then the rest. */
  method WriteChain(output: array<byte>, op: nat, k: nat) returns (op': nat)
    requires op + |LengthChain(k)| <= output.Length
    modifies output
    ensures op' == op + |LengthChain(k)|
    ensures output[..op'] == old(output[..op]) + LengthChain(k)
    ensures SameOutside(old(output[..]), output[..], op, op')
  {
    op' := op;
    var len := k;
    while len >= 255
      invariant op <= op' && op' + |LengthChain(len)| == op + |LengthChain(k)|
      invariant output[..op'] + LengthChain(len) == old(output[..op]) + LengthChain(k)
      invariant SameOutside(old(output[..]), output[..], op, op')
    {
      ghost var before := output[..op'];
      op' := Emit(output, op', 255);
      assert before + ([255] + LengthChain(len - 255)) == before + [255] + LengthChain(len - 255);
      len := len - 255;
    }
    op' := Emit(output, op', len);
  }

  /** `distance` is the match's distance less one and `len` its length less two, as in all that follow. */
  method WriteShort1(output: array<byte>, op: nat, distance: nat, len: nat) returns (op': nat)
    requires distance < 8191 && 1 <= len <= MAX_LEN - 2
    requires op + |MatchBytes1(distance + 1, len + 2)| <= output.Length
    modifies output
    ensures op' == op + |MatchBytes1(distance + 1, len + 2)|
    ensures output[..op'] == old(output[..op]) + MatchBytes1(distance + 1, len + 2)
    ensures SameOutside(old(output[..]), output[..], op, op')
  {
    if len < 7 {
      op' := Emit(output, op, len * 32 + distance / 256);
      op' := Emit(output, op', distance % 256);
    } else {
      op' := Emit(output, op, 224 + distance / 256);
      op' := Emit(output, op', len - 7);
      op' := Emit(output, op', distance % 256);
    }
  }

  method WriteMatch1(output: array<byte>, op: nat, distance: nat, length: nat) returns (op': nat)
    requires distance < 8191 && length >= 1
    requires op + |SplitBytes(distance + 1, length + 2)| <= output.Length
    modifies output
    ensures op' == op + |SplitBytes(distance + 1, length + 2)|
    ensures output[..op'] == old(output[..op]) + SplitBytes(distance + 1, length + 2)
    ensures SameOutside(old(output[..]), output[..], op, op')
  {
    op' := op;
    var len := length;
    ghost var d := distance + 1;
    while len > MAX_LEN - 2
      invariant len >= 1 && op <= op'
      invariant op' + |SplitBytes(d, len + 2)| == op + |SplitBytes(d, length + 2)|
      invariant output[..op'] + SplitBytes(d, len + 2) == old(output[..op]) + SplitBytes(d, length + 2)
      invariant SameOutside(old(output[..]), output[..], op, op')
    {
      ghost var before := output[..op'];
      ghost var rest := SplitBytes(d, len + 2 - (MAX_LEN - 2));
      op' := WriteFull1(output, op', distance);
      assert before + (MatchBytes1(d, MAX_LEN - 2) + rest) == output[..op'] + rest;
      len := len - (MAX_LEN - 2);
    }
    op' := WriteShort1(output, op', distance, len);
  }

  /** The piece that is cut off a long match. */
  method WriteFull1(output: array<byte>, op: nat, distance: nat) returns (op': nat)
    requires distance < 8191 && op + 3 <= output.Length
    modifies output
    ensures op' == op + 3
    ensures output[..op'] == old(output[..op]) + MatchBytes1(distance + 1, MAX_LEN - 2)
    ensures SameOutside(old(output[..]), output[..], op, op')
  {
    op' := Emit(output, op, 224 + distance / 256);
    op' := Emit(output, op', MAX_LEN - 2 - 7 - 2);
    op' := Emit(output, op', distance % 256);
  }

  method WriteNear2(output: array<byte>, op: nat, distance: nat, len: nat) returns (op': nat)
    requires distance < MAX_DISTANCE2 && len >= 1
    requires op + |MatchBytes2(distance + 1, len + 2)| <= output.Length
    modifies output
    ensures op' == op + |MatchBytes2(distance + 1, len + 2)|
    ensures output[..op'] == old(output[..op]) + MatchBytes2(distance + 1, len + 2)
    ensures SameOutside(old(output[..]), output[..], op, op')
  {
    hide LengthChain;
    if len < 7 {
      op' := Emit(output, op, len * 32 + distance / 256);
      op' := Emit(output, op', distance % 256);
    } else {
      op' := Emit(output, op, 224 + distance / 256);
      op' := WriteChain(output, op', len - 7);
      op' := Emit(output, op', distance % 256);
    }
  }

  method WriteFarDistance(output: array<byte>, op: nat, far: nat) returns (op': nat)
    requires far < 65536 && op + 3 <= output.Length
    modifies output
    ensures op' == op + 3
    ensures output[..op'] == old(output[..op]) + [255, far / 256, far % 256]
    ensures SameOutside(old(output[..]), output[..], op, op')
  {
    op' := Emit(output, op, 255);
    op' := Emit(output, op', far / 256);
    op' := Emit(output, op', far % 256);
  }

  method WriteFar2(output: array<byte>, op: nat, distance: nat, len: nat) returns (op': nat)
    requires MAX_DISTANCE2 <= distance < MAX_DISTANCE2 + 65536 && len >= 1
    requires op + |MatchBytes2(distance + 1, len + 2)| <= output.Length
    modifies output
    ensures op' == op + |MatchBytes2(distance + 1, len + 2)|
    ensures output[..op'] == old(output[..op]) + MatchBytes2(distance + 1, len + 2)
    ensures SameOutside(old(output[..]), output[..], op, op')
  {
    hide LengthChain;
    if len < 7 {
      op' := Emit(output, op, len * 32 + 31);
      op' := WriteFarDistance(output, op', distance - MAX_DISTANCE2);
    } else {
      op' := Emit(output, op, 224 + 31);
      op' := WriteChain(output, op', len - 7);
      op' := WriteFarDistance(output, op', distance - MAX_DISTANCE2);
    }
  }

  method WriteMatch(level: Level, output: array<byte>, op: nat, distance: nat, len: nat) returns (op': nat)
    requires len >= 1 && Encodable(level, distance + 1, len + 2)
    requires op + |MatchBytes(level, distance + 1, len + 2)| <= output.Length
    modifies output
    ensures op' == op + |MatchBytes(level, distance + 1, len + 2)|
    ensures output[..op'] == old(output[..op]) + MatchBytes(level, distance + 1, len + 2)
    ensures SameOutside(old(output[..]), output[..], op, op')
  {
    hide SplitBytes, MatchBytes2;
    match level
    case Level1 => op' := WriteMatch1(output, op, distance, len);
    case Level2 =>
      if distance < MAX_DISTANCE2 {
        op' := WriteNear2(output, op, distance, len);
      } else {
        op' := WriteFar2(output, op, distance, len);
      }
  }

  /** Writes back the count of the open literal run, or takes back the byte kept for it. */
  method EndLiterals(output: array<byte>, op: nat, copy: nat) returns (op': nat)
    requires copy < op <= output.Length && copy < MAX_COPY
    modifies output
    ensures op' <= op && op' == |CloseRun(old(output[..op]), copy)|
    ensures output[..op'] == CloseRun(old(output[..op]), copy)
    ensures SameOutside(old(output[..]), output[..], 0, op)
  {
    if copy > 0 {
      output[op - copy - 1] := copy - 1;
      op' := op;
    } else {
      op' := op - 1;
    }
  }

  method AddLiteral(output: array<byte>, op: nat, copy: nat, b: byte) returns (op': nat, copy': nat)
    requires op + |PushLiteral([], copy, b).1| <= output.Length
    modifies output
    ensures op' == |PushLiteral(old(output[..op]), copy, b).1|
    ensures (copy', output[..op']) == PushLiteral(old(output[..op]), copy, b)
    ensures SameOutside(old(output[..]), output[..], op, op')
  {
    op' := Emit(output, op, b);
    copy' := copy + 1;
    if copy' == MAX_COPY {
      copy' := 0;
      op' := Emit(output, op', HEADER);
    }
  }

  // ------------------------------------------------------------------ comparing

  /** The place where comparing stops is determined by what was compared. */
  lemma {:induction false} ScanUnique(x: seq<byte>, ref: nat, ip: nat, limit: nat, e: nat)
    requires ref < ip < limit <= |x| && ip < e <= limit
    requires forall j :: ip <= j < e - 1 ==> x[j] == x[j - (ip - ref)]
    requires e < limit ==> x[e - 1] != x[e - 1 - (ip - ref)]
    ensures Scan(x, ref, ip, limit) == e
    decreases limit - ip
  {
    if e == ip + 1 {
      if x[ref] == x[ip] { assert e == limit; }
    } else {
      assert x[ip] == x[ip - (ip - ref)];
      ScanUnique(x, ref + 1, ip + 1, limit, e);
    }
  }

  /** The loop for a run compares with one byte and does not pass the byte that differs. */
  method ExtendRun(input: array<byte>, length: nat, start: nat) returns (e: nat)
    requires 1 <= start && start + 8 <= length <= input.Length && start < length - 2
    ensures e == Scan(input[..length], start - 1, start, length - 2)
  {
    var bound := length - 2;
    var b := input[start - 1];
    var ref := start - 1;
    e := start;
    while e < bound
      invariant start <= e <= bound && ref == e - 1
      invariant forall j :: start - 1 <= j < ref ==> input[j] == b
      invariant e == start || input[ref - 1] == b
    {
      if input[ref] != b {
        break;
      }
      ref, e := ref + 1, e + 1;
    }
    ScanUnique(input[..length], start - 1, start, bound, e);
  }

  /** Eight comparisons that need no bound, then the rest up to the bound. */
  method ExtendMatch(input: array<byte>, length: nat, start: nat, distance: nat) returns (e: nat)
    requires 1 <= distance <= start && start + 8 <= length <= input.Length
    ensures e == Scan(input[..length], start - distance, start, ScanLimit(input[..length], start))
  {
    ghost var limit := ScanLimit(input[..length], start);
    var bound := length - 2;
    var ref := start - distance;
    var count := 0;
    e := start;
    while count < 8
      invariant 0 <= count <= 8 && e == start + count && ref == e - distance
      invariant forall j :: start <= j < e ==> input[j] == input[j - distance]
    {
      ref, e := ref + 1, e + 1;
      if input[ref - 1] != input[e - 1] {
        ScanUnique(input[..length], start - distance, start, limit, e);
        return;
      }
      count := count + 1;
    }
    while e < bound
      invariant start + 8 <= e <= limit && ref == e - distance
      invariant forall j :: start <= j < e ==> input[j] == input[j - distance]
    {
      ref, e := ref + 1, e + 1;
      if input[ref - 1] != input[e - 1] {
        ScanUnique(input[..length], start - distance, start, limit, e);
        return;
      }
    }
    ScanUnique(input[..length], start - distance, start, limit, e);
  }

  // ------------------------------------------------------------------ searching

  /** `beyond` is whatever byte memory holds right behind the input. */
  method HashOf(input: array<byte>, length: nat, beyond: byte, i: nat) returns (h: nat)
    requires i + 1 < length <= input.Length
    ensures h < HASH_SIZE
    ensures i + 2 < length ==> h == HashAt(input[..length], i)
  {
    hide Hash;
    h := Hash(input[i], input[i + 1], if i + 2 < length then input[i + 2] else beyond);
  }

  method FindMatch(level: Level, input: array<byte>, length: nat, htab: array<nat>, ip: nat)
    returns (found: bool, distance: nat, len: nat)
    requires htab.Length == HASH_SIZE && 1 <= ip && ip + 12 < length <= input.Length
    requires forall h :: 0 <= h < htab.Length ==> htab[h] < ip
    modifies htab
    ensures htab[..] == TableAfter(level, input[..length], old(htab[..]), ip)
    ensures forall h :: 0 <= h < htab.Length ==> htab[h] <= ip
    ensures Search(level, input[..length], old(htab[..]), ip)
         == if found then Some(Candidate(distance, len)) else None
  {
    hide Hash;
    ghost var x := input[..length];
    distance, len := 0, 3;
    if level == Level2 && input[ip] == input[ip - 1]
       && input[ip - 1] == input[ip + 1] && input[ip] == input[ip + 2] {
      return true, 1, 3;
    }
    assert !TakesRun(level, x, ip);
    var hval := HashOf(input, length, 0, ip);
    var ref := htab[hval];
    distance := ip - ref;
    htab[hval] := ip;
    assert htab[..] == old(htab[..])[hval := ip];
    if distance == 0 || distance >= FarLimit(level)
       || input[ref] != input[ip] || input[ref + 1] != input[ip + 1] || input[ref + 2] != input[ip + 2] {
      return false, distance, len;
    }
    if level == Level2 && distance >= MAX_DISTANCE2 {
      if input[ip + 3] != input[ref + 3] || input[ip + 4] != input[ref + 4] {
        return false, distance, len;
      }
      len := len + 2;
    }
    found := true;
  }

  // ------------------------------------------------------------------ the whole pass

  /** Finds where the match ends and gives the cursor, three back from where comparing stopped. */
  method ExtendBack(input: array<byte>, length: nat, anchor: nat, distance: nat, len: nat) returns (ip: nat)
    requires 1 <= distance <= anchor && 3 <= len && anchor + len + 8 <= length <= input.Length
    requires distance == 1 ==> len == 3 && anchor + 12 < length
    ensures ip + 3 == MatchEnd(input[..length], anchor, Candidate(distance, len))
  {
    if distance == 1 {
      ip := ExtendRun(input, length, anchor + len);
    } else {
      ip := ExtendMatch(input, length, anchor + len, distance);
    }
    ip := ip - 3;
  }

  /** Enters the two positions at the end of a match into the table. */
  method HashBoundary(input: array<byte>, length: nat, beyond: byte, htab: array<nat>, ip: nat)
    requires htab.Length == HASH_SIZE && ip + 2 < length <= input.Length
    modifies htab
    ensures forall h :: 0 <= h < htab.Length ==> htab[h] == old(htab[h]) || htab[h] == ip || htab[h] == ip + 1
    ensures ip + 3 < length ==>
      (var x := input[..length];
       var next: nat := ip + 1;
       htab[..] == old(htab[..])[HashAt(x, ip) := ip][HashAt(x, next) := next])
  {
    hide Hash;
    ghost var t: seq<nat> := htab[..];
    var next: nat := ip + 1;
    var hval := HashOf(input, length, beyond, ip);
    htab[hval] := ip;
    assert htab[..] == t[hval := ip];
    hval := HashOf(input, length, beyond, next);
    ghost var t': seq<nat> := htab[..];
    htab[hval] := next;
    assert htab[..] == t'[hval := next];
  }

  /** The open output never takes more than its room. */
  lemma PendingFits(level: Level, x: seq<byte>, ip: nat, copy: nat, out: seq<byte>, ts: seq<Token>)
    requires Pending(level, x, ip, copy, out, ts)
    ensures |out| <= Room(|x|)
  {
  }

  lemma StepIsLiteral(level: Level, x: seq<byte>, st: State)
    requires Ok(x, st) && st.ip + 12 < |x| && Search(level, x, st.htab, st.ip).None?
    ensures (var (copy, out) := PushLiteral(st.out, st.copy, x[st.ip]);
             Step(level, x, st) == State(TableAfter(level, x, st.htab, st.ip), st.ip + 1, copy, out))
  {
    hide Search, HashAt, TableAfter;
  }

  lemma StepIsMatch(level: Level, x: seq<byte>, st: State, c: Candidate)
    requires Ok(x, st) && st.ip + 12 < |x| && Search(level, x, st.htab, st.ip) == Some(c)
    ensures 1 <= c.distance <= st.ip && 3 <= c.len && st.ip + c.len + 8 <= |x|
    ensures c.distance == 1 ==> c.len == 3
    ensures (var e := MatchEnd(x, st.ip, c);
             && st.ip + 3 < e && Encodable(level, c.distance, e - 1 - st.ip)
             && var st' := Step(level, x, st);
                && st'.ip == e - 1 && st'.copy == 0
                && st'.out == CloseRun(st.out, st.copy) + MatchBytes(level, c.distance, e - 1 - st.ip) + [HEADER]
                && st'.htab
                   == TableAfter(level, x, st.htab, st.ip)[HashAt(x, e - 3) := e - 3][HashAt(x, e - 2) := e - 2])
  {
    hide MatchEnd, HashAt, TableAfter, MatchBytes, CloseRun, Encodable;
    CandidateEncodable(level, x, st.htab, st.ip);
    if c.distance == 1 { CandidateNear(level, x, st.htab, st.ip); }
  }

  lemma CandidateNear(level: Level, x: seq<byte>, htab: seq<nat>, ip: nat)
    requires |htab| == HASH_SIZE && 1 <= ip && ip + 12 < |x|
    requires forall h :: 0 <= h < |htab| ==> htab[h] < ip
    requires Search(level, x, htab, ip).Some? && Search(level, x, htab, ip).value.distance == 1
    ensures Search(level, x, htab, ip).value.len == 3
  {
    hide Hash;
  }

  /** The variables of the loop stand for the state `st`; the table matters only while the loop goes on. */
  ghost predicate Stands(level: Level, x: seq<byte>, htab: seq<nat>, ip: nat, copy: nat, out: seq<byte>, st: State,
                         ts: seq<Token>)
  {
    && Ok(x, st) && st.ip == ip && st.copy == copy && st.out == out
    && |htab| == HASH_SIZE && (forall h :: 0 <= h < |htab| ==> htab[h] < ip)
    && (ip + 12 < |x| ==> st.htab == htab)
    && Pending(level, x, ip, copy, out, ts)
  }

  /** A match: count back, write the tokens, enter the boundary positions, open a literal run. */
  method MatchPass(level: Level, input: array<byte>, length: nat, beyond: byte, htab: array<nat>, output: array<byte>,
                   anchor: nat, op: nat, copy: nat, distance: nat, found: nat)
    returns (ip': nat, op': nat)
    requires htab.Length == HASH_SIZE && copy < op <= output.Length && copy < MAX_COPY
    requires 1 <= distance <= anchor && 3 <= found && anchor + found + 8 <= length <= input.Length && input != output
    requires distance == 1 ==> found == 3 && anchor + 12 < length
    requires anchor + 3 < MatchEnd(input[..length], anchor, Candidate(distance, found))
    requires Encodable(level, distance, MatchEnd(input[..length], anchor, Candidate(distance, found)) - 1 - anchor)
    requires |CloseRun(output[..op], copy)|
      + |MatchBytes(level, distance, MatchEnd(input[..length], anchor, Candidate(distance, found)) - 1 - anchor)|
      < output.Length
    modifies htab, output
    ensures ip' + 1 == MatchEnd(input[..length], anchor, Candidate(distance, found))
    ensures op' <= output.Length
    ensures output[..op'] == CloseRun(old(output[..op]), copy) + MatchBytes(level, distance, ip' - anchor) + [HEADER]
    ensures SameOutside(old(output[..]), output[..], 0, op')
    ensures forall h :: 0 <= h < htab.Length ==> htab[h] == old(htab[h]) || htab[h] == ip' - 2 || htab[h] == ip' - 1
    ensures ip' + 1 < length ==>
      (var (x, first: nat, second: nat) := (input[..length], ip' - 2, ip' - 1);
       htab[..] == old(htab[..])[HashAt(x, first) := first][HashAt(x, second) := second])
  {
    hide MatchEnd, HashAt, MatchBytes, Encodable;
    var ip := ExtendBack(input, length, anchor, distance, found);
    op' := EndLiterals(output, op, copy);
    var len := ip - anchor;
    op' := WriteMatch(level, output, op', distance - 1, len);
    HashBoundary(input, length, beyond, htab, ip);
    op' := Emit(output, op', HEADER);
    ip' := ip + 2;
  }

  /** One pass of the main loop does what `Step` says, whatever byte lies behind the input. */
  method LoopPass(level: Level, input: array<byte>, length: nat, beyond: byte, htab: array<nat>, output: array<byte>,
                  ip: nat, op: nat, copy: nat, ghost st: State, ghost ts: seq<Token>)
    returns (ip': nat, op': nat, copy': nat, ghost ts': seq<Token>)
    requires input != output && ip + 12 < length <= input.Length && Room(length) <= output.Length && op <= output.Length
    requires Stands(level, input[..length], htab[..], ip, copy, output[..op], st, ts)
    modifies htab, output
    ensures op' <= Room(length)
    ensures Stands(level, input[..length], htab[..], ip', copy', output[..op'], Step(level, input[..length], st), ts')
    ensures SameOutside(old(output[..]), output[..], 0, Room(length))
  {
    hide Search, Check, MatchEnd, HashAt, TableAfter, MatchBytes, Encodable, Pending, Step, CloseRun;
    ghost var x := input[..length];
    ghost var st' := Step(level, x, st);
    ts' := StepKeeps(level, x, st, ts);
    PendingFits(level, x, st'.ip, st'.copy, st'.out, ts');
    var found, distance, len := FindMatch(level, input, length, htab, ip);
    if found {
      StepIsMatch(level, x, st, Candidate(distance, len));
      ip', op' := MatchPass(level, input, length, beyond, htab, output, ip, op, copy, distance, len);
      copy' := 0;
    } else {
      StepIsLiteral(level, x, st);
      op', copy' := AddLiteral(output, op, copy, input[ip]);
      ip' := ip + 1;
    }
  }

  /** What is left over goes out as literals, and the last run is closed. */
  method WriteTail(level: Level, input: array<byte>, length: nat, output: array<byte>, start: nat, op: nat, copy: nat,
                   ghost ts: seq<Token>)
    returns (r: nat)
    requires input != output && start <= length <= input.Length && op <= Room(length) <= output.Length
    requires Pending(level, input[..length], start, copy, output[..op], ts)
    modifies output
    ensures r <= Room(length)
    ensures output[..r] == old(Tail(input[..length], start, copy, output[..op]))
    ensures SameOutside(old(output[..]), output[..], 0, Room(length))
  {
    hide Pending, Serialize, Expand, WellFormed;
    ghost var x := input[..length];
    var ip: nat, copy': nat := start, copy;
    r := op;
    PendingShape(level, x, start, copy, output[..op], ts);
    ghost var ts' := ts;
    while ip < length
      invariant start <= ip <= length && r <= Room(length) && input[..length] == x
      invariant copy' < MAX_COPY && copy' < r
      invariant Pending(level, x, ip, copy', output[..r], ts')
      invariant Tail(x, ip, copy', output[..r]) == old(Tail(input[..length], start, copy, output[..op]))
      invariant SameOutside(old(output[..]), output[..], 0, Room(length))
    {
      ghost var (copy1, out1) := PushLiteral(output[..r], copy', x[ip]);
      ts' := PushLiteralKeeps(level, x, ip, copy', output[..r], ts');
      PendingShape(level, x, ip + 1, copy1, out1, ts');
      r, copy' := AddLiteral(output, r, copy', input[ip]);
      ip := ip + 1;
    }
    r := EndLiterals(output, r, copy');
  }

  lemma PendingShape(level: Level, x: seq<byte>, ip: nat, copy: nat, out: seq<byte>, ts: seq<Token>)
    requires Pending(level, x, ip, copy, out, ts)
    ensures copy < |out| <= Room(|x|) && copy < MAX_COPY && ip <= |x|
  {
  }

  method FillTable(htab: array<nat>)
    requires htab.Length == HASH_SIZE
    modifies htab
    ensures htab[..] == seq(HASH_SIZE, _ => 0)
  {
    var h := 0;
    while h < HASH_SIZE
      invariant h <= HASH_SIZE
      invariant forall k :: 0 <= k < h ==> htab[k] == 0
    {
      htab[h] := 0;
      h := h + 1;
    }
  }

  method CompressShort(input: array<byte>, length: nat, output: array<byte>) returns (r: nat)
    requires input != output && length <= input.Length && length < 4
    requires length > 0 ==> Room(length) <= output.Length
    modifies output
    ensures r <= output.Length
    ensures output[..r] == if length == 0 then [] else [length - 1] + input[..length]
    ensures SameOutside(old(output[..]), output[..], 0, if length == 0 then 0 else Room(length))
  {
    if length == 0 {
      return 0;
    }
    var op := Emit(output, 0, length - 1);
    var ip := 0;
    while ip < length
      invariant ip <= length && op == ip + 1
      invariant output[..op] == [length - 1] + input[..ip]
      invariant SameOutside(old(output[..]), output[..], 0, op)
    {
      op := Emit(output, op, input[ip]);
      ip := ip + 1;
    }
    r := length + 1;
  }

  /** Sets the marker bit of level 2 in the first byte. */
  method SetMarker(level: Level, output: array<byte>, r: nat)
    requires r <= output.Length
    modifies output
    ensures output[..r] == old(Mark(level, output[..r]))
    ensures SameOutside(old(output[..]), output[..], 0, r)
  {
    if level == Level2 && r > 0 && output[0] / 32 % 2 == 0 {
      output[0] := output[0] + 32;
    }
  }

  lemma RunUnfold(level: Level, x: seq<byte>, st: State)
    requires Ok(x, st)
    ensures Run(level, x, st)
         == if st.ip + 12 < |x| then Run(level, x, Step(level, x, st)) else Tail(x, st.ip, st.copy, st.out)
  {
    hide Step, Tail;
  }

  lemma StandsInit(level: Level, x: seq<byte>, htab: seq<nat>, st: State)
    requires |x| >= 4 && st == Init(x) && htab == st.htab && Pending(level, x, 2, 2, st.out, [])
    ensures Stands(level, x, htab, 2, 2, st.out, st, [])
  {
    hide Pending;
  }

  lemma StandsOpen(level: Level, x: seq<byte>, htab: seq<nat>, ip: nat, copy: nat, out: seq<byte>, st: State,
                   ts: seq<Token>)
    requires Stands(level, x, htab, ip, copy, out, st, ts)
    ensures Ok(x, st) && st.ip == ip && st.copy == copy && st.out == out
    ensures Pending(level, x, ip, copy, out, ts)
  {
    hide Pending;
  }

  /** One compressor body for both levels. The output needs one byte of room in 32 and one more;
      `beyond`, the byte behind the input, has no effect. */
  method CompressBlock(level: Level, input: array<byte>, length: nat, beyond: byte, output: array<byte>)
    returns (r: nat)
    requires input != output && length <= input.Length
    requires length > 0 ==> Room(length) <= output.Length
    modifies output
    ensures r <= output.Length && output[..r] == Compress(level, input[..length])
    ensures SameOutside(old(output[..]), output[..], 0, if length == 0 then 0 else Room(length))
  {
    hide Run, Tail, Stands, Step;
    ghost var x := input[..length];
    if length < 4 {
      r := CompressShort(input, length, output);
      return;
    }
    var htab := new nat[HASH_SIZE];
    FillTable(htab);
    var ip, copy := 2, 2;
    var op := Emit(output, 0, HEADER);
    op := Emit(output, op, input[0]);
    op := Emit(output, op, input[1]);
    assert output[..op] == Init(x).out;
    InitPending(level, x);
    ghost var st, ts := Init(x), [];
    StandsInit(level, x, htab[..], st);
    while ip + 12 < length
      invariant st.ip == ip <= length && op <= Room(length) && input[..length] == x
      invariant Stands(level, x, htab[..], ip, copy, output[..op], st, ts)
      invariant Ok(x, st) && Run(level, x, st) == Run(level, x, Init(x))
      invariant SameOutside(old(output[..]), output[..], 0, Room(length))
      decreases length - ip
    {
      RunUnfold(level, x, st);
      StandsOpen(level, x, htab[..], ip, copy, output[..op], st, ts);
      ghost var next := Step(level, x, st);
      ip, op, copy, ts := LoopPass(level, input, length, beyond, htab, output, ip, op, copy, st, ts);
      st := next;
      StandsOpen(level, x, htab[..], ip, copy, output[..op], st, ts);
    }
    RunUnfold(level, x, st);
    StandsOpen(level, x, htab[..], ip, copy, output[..op], st, ts);
    r := WriteTail(level, input, length, output, ip, op, copy, ts);
    SetMarker(level, output, r);
  }
}
