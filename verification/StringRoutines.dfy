/** The emitted string routines: loops over NUL-terminated buffers with 16-bit lengths and 32-bit counts.

    A buffer is an array holding a NUL; its text is what is before the first one. The destination may be
    the source. Every read goes through `Peek`, whose bound is the source's own terminator. */
module StringRoutines {
  type Byte = bv8

  const I16_MAX := 0x7fff
  const I32_MAX := 0x7fff_ffff
  const I32_MIN := -0x8000_0000

  type I32 = v: int | I32_MIN <= v <= I32_MAX

  /** Two's complement at 32 bits. */
  function Wrap32(v: int): I32 {
    var u := (v - I32_MIN) % 0x1_0000_0000;
    u + I32_MIN
  }

  function TextOf(s: seq<Byte>): (t: seq<Byte>)
    ensures |t| <= |s|
  {
    if s == [] || s[0] == 0 then [] else [s[0]] + TextOf(s[1..])
  }

  predicate Terminated(s: seq<Byte>) { 0 in s }

  /** A string whose length a 16-bit counter can hold. */
  predicate Short(s: seq<Byte>) { Terminated(s) && |TextOf(s)| <= I16_MAX }

  lemma {:induction false} TextAt(s: seq<Byte>)
    requires Terminated(s)
    ensures var k := |TextOf(s)|;
            k < |s| && s[k] == 0 && TextOf(s) == s[..k] && forall i :: 0 <= i < k ==> s[i] != 0
  {
    if s[0] != 0 {
      assert s == [s[0]] + s[1..];
      TextAt(s[1..]);
    }
  }

  lemma {:induction false} TextIs(s: seq<Byte>, k: nat)
    requires k < |s| && s[k] == 0 && forall i :: 0 <= i < k ==> s[i] != 0
    ensures TextOf(s) == s[..k] && Terminated(s)
  {
    if k > 0 {
      TextIs(s[1..], k - 1);
      assert s[..k] == [s[0]] + s[1..][..k - 1];
    }
  }

  /** A buffer holds a short string when there is a NUL among its first 32768 bytes. */
  lemma {:induction false} ShortIff(s: seq<Byte>)
    ensures Short(s) <==> exists k :: 0 <= k < |s| && k < 32768 && s[k] == 0
  {
    if Terminated(s) { TextAt(s); }
  }

  /** A load that stays within the string, terminator included. */
  function Peek(a: array<Byte>, i: int, ghost end: nat): Byte
    requires 0 <= i <= end < a.Length
    reads a
  {
    a[i]
  }

  // ----- what the routines compute -----------------------------------------

  function Min(a: int, b: int): int { if a < b then a else b }
  function Max(a: int, b: int): int { if a > b then a else b }

  function Clip(t: seq<Byte>, room: nat): seq<Byte> { t[..Min(room, |t|)] }

  function Left(t: seq<Byte>, n: int): seq<Byte> { t[..Min(Max(n, 0), |t|)] }

  function Right(t: seq<Byte>, n: int): seq<Byte> { t[|t| - Min(Max(n, 0), |t|)..] }

  function Mid(t: seq<Byte>, len: int, pos: int): seq<Byte>
    requires 1 <= pos <= |t| + 1
  {
    t[pos - 1..][..Min(Max(len, 0), |t| - (pos - 1))]
  }

  predicate Matches(t: seq<Byte>, u: seq<Byte>, i: nat) { i + |u| <= |t| && t[i..i + |u|] == u }

  /** The position, counted from 0, that REPLACE starts at. */
  function ReplaceAt(t: seq<Byte>, p: I32): (at: nat)
    ensures at <= |t|
  {
    Min(Max(Wrap32(p - 1), 0), |t|)
  }

  /** The index MID reads first. */
  function MidStart(pos: I32): I32 { Wrap32(pos - 1) }

  /** The index REPLACE goes on reading at behind the replaced characters. */
  function ReplaceTail(t: seq<Byte>, l: I32, at: nat): int { Min(Wrap32(at + Max(l, 0)), |t|) }

  /** The index lies in the string, its NUL included. */
  predicate Within(i: int, t: seq<Byte>) { 0 <= i <= |t| }

  function Replaced(t: seq<Byte>, u: seq<Byte>, l: int, at: nat): seq<Byte>
    requires at <= |t|
  {
    t[..at] + u + t[Min(at + Max(l, 0), |t|)..]
  }

  // ----- LEN and FIND ------------------------------------------------------

  method StrLen(src: array<Byte>) returns (n: nat)
    requires Short(src[..])
    ensures n == |TextOf(src[..])| <= I16_MAX
  {
    TextAt(src[..]);
    ghost var end := |TextOf(src[..])|;
    n := 0;
    while Peek(src, n, end) != 0
      invariant n <= end
      decreases end - n
    {
      n := n + 1;
    }
  }

  /** The least position, from 1 to the length, where the needle is; else 0. */
  method Find(haystack: array<Byte>, needle: array<Byte>) returns (pos: nat)
    requires Short(haystack[..]) && Short(needle[..])
    ensures pos <= I16_MAX
    ensures var (t, u) := (TextOf(haystack[..]), TextOf(needle[..]));
            if pos == 0 then forall i :: 0 <= i < |t| ==> !Matches(t, u, i)
            else pos <= |t| && Matches(t, u, pos - 1) && forall i :: 0 <= i < pos - 1 ==> !Matches(t, u, i)
  {
    TextAt(haystack[..]);
    TextAt(needle[..]);
    ghost var (t, u) := (TextOf(haystack[..]), TextOf(needle[..]));
    var i := 0;
    while Peek(haystack, i, |t|) != 0
      invariant i <= |t| && forall k :: 0 <= k < i ==> !Matches(t, u, k)
      decreases |t| - i
    {
      var j := 0;
      while Peek(needle, j, |u|) != 0 && Peek(haystack, i + j, |t|) == Peek(needle, j, |u|)
        invariant j <= |u| && i + j <= |t| && forall k :: 0 <= k < j ==> t[i + k] == u[k]
        decreases |u| - j
      {
        j := j + 1;
      }
      if Peek(needle, j, |u|) == 0 {
        return i + 1;
      }
      Mismatch(t, u, i, j);
      i := i + 1;
    }
    pos := 0;
  }

  lemma MatchesAt(t: seq<Byte>, u: seq<Byte>, i: nat, j: nat)
    requires Matches(t, u, i) && j < |u|
    ensures t[i + j] == u[j]
  {
    assert t[i + j] == t[i..i + |u|][j];
  }

  lemma Mismatch(t: seq<Byte>, u: seq<Byte>, i: nat, j: nat)
    requires j < |u| && i + j <= |t| && (i + j < |t| ==> t[i + j] != u[j])
    ensures !Matches(t, u, i)
  {
    if Matches(t, u, i) {
      MatchesAt(t, u, i, j);
      assert false;
    }
  }

  lemma NoNul(s: seq<Byte>)
    requires Terminated(s)
    ensures forall k :: 0 <= k < |TextOf(s)| ==> TextOf(s)[k] != 0
  {
    TextAt(s);
  }

  // ----- LEFT, RIGHT and MID -----------------------------------------------

  /** The buffer holds exactly this text, and nothing behind its capacity has changed. */
  ghost predicate Holds(now: seq<Byte>, was: seq<Byte>, t: seq<Byte>, capacity: int)
    requires 1 <= capacity <= |now| == |was|
  {
    Terminated(now) && TextOf(now) == t && now[capacity..] == was[capacity..]
  }

  lemma TextWritten(s: seq<Byte>, t: seq<Byte>)
    requires |t| < |s| && s[..|t|] == t && s[|t|] == 0 && forall i :: 0 <= i < |t| ==> t[i] != 0
    ensures TextOf(s) == t && Terminated(s)
  {
    forall i | 0 <= i < |t| ensures s[i] != 0 { assert s[i] == s[..|t|][i]; }
    TextIs(s, |t|);
  }

  /** The first n characters are those of t from `start` on; nothing else has changed. */
  ghost predicate Copied(now: seq<Byte>, was: seq<Byte>, t: seq<Byte>, start: int, n: int)
    requires |now| == |was| && 0 <= start && 0 <= n <= |now| && start + n <= |t|
  {
    && (forall k :: 0 <= k < n ==> now[k] == t[start + k])
    && forall k :: n <= k < |now| ==> now[k] == was[k]
  }

  lemma CopiedNext(now: seq<Byte>, was: seq<Byte>, t: seq<Byte>, start: int, n: int)
    requires |now| == |was| && 0 <= start && 0 <= n < |now| && start + n < |t| && Copied(now, was, t, start, n)
    ensures Copied(now[n := t[start + n]], was, t, start, n + 1)
  {
  }

  /** With a NUL behind them they are the text. */
  lemma Terminates(now: seq<Byte>, was: seq<Byte>, t: seq<Byte>, start: int, n: int, capacity: int)
    requires 0 <= start && 0 <= n < capacity <= |now| == |was| && start + n <= |t|
    requires forall k :: 0 <= k < |t| ==> t[k] != 0
    requires Copied(now, was, t, start, n)
    ensures Holds(now[n := 0], was, t[start..start + n], capacity)
  {
    var done := now[n := 0];
    assert done[..n] == t[start..start + n];
    TextWritten(done, t[start..start + n]);
  }

  lemma CopiedNothing(was: seq<Byte>, t: seq<Byte>, start: int)
    requires 0 <= start <= |t|
    ensures Copied(was, was, t, start, 0)
  {
  }

  /** From here on the buffer is as it was. */
  ghost predicate Unread(now: seq<Byte>, was: seq<Byte>, from: int) {
    |now| == |was| && forall k :: 0 <= from <= k < |now| ==> now[k] == was[k]
  }

  /** Writing behind the place read from leaves the rest unread, in a source that is the destination too. */
  lemma UnreadNext(now: seq<Byte>, was: seq<Byte>, from: int, i: int, ch: Byte)
    requires Unread(now, was, from) && 0 <= i <= from < |now|
    ensures Unread(now, was, from + 1) && Unread(now[i := ch], was, from + 1)
  {
  }

  /** What is read there is the text, and behind it the NUL. */
  lemma ReadsText(now: seq<Byte>, was: seq<Byte>, from: nat)
    requires Terminated(was) && Unread(now, was, from) && from <= |TextOf(was)|
    ensures var t := TextOf(was);
            && |t| < |now|
            && now[from] == (if from < |t| then t[from] else 0)
            && (from < |t| ==> t[from] != 0)
  {
    TextAt(was);
  }

  /** How far a copy gets that stops at the end of the text, after n characters, or when the room is used up. */
  lemma CopyStops(t: seq<Byte>, start: nat, n: int, room: nat, i: nat)
    requires start + i <= |t| && i <= Max(n, 0) && i <= room
    requires i >= n || i == room || start + i == |t|
    ensures t[start..start + i] == Clip(t[start..][..Min(Max(n, 0), |t| - start)], room)
  {
  }

  lemma LeftIs(t: seq<Byte>, n: int)
    ensures Left(t, n) == t[0..][..Min(Max(n, 0), |t| - 0)]
  {
  }

  /** LEFT: the characters up to n, as far as the capacity goes. */
  method StrLeft(dest: array<Byte>, src: array<Byte>, n: I32, maxLen: I32)
    requires Terminated(src[..]) && 1 <= maxLen <= dest.Length
    modifies dest
    ensures Holds(dest[..], old(dest[..]), Clip(Left(old(TextOf(src[..])), n), maxLen - 1), maxLen)
  {
    hide TextOf, Holds, Copied, Unread, Clip, Left;
    ghost var (s, was) := (src[..], dest[..]);
    ghost var t := TextOf(s);
    NoNul(s);
    assert Unread(s, s, 0) by { AllUnread(s); }
    ReadsText(s, s, 0);
    CopiedNothing(was, t, 0);
    var i := 0;
    var ch := Peek(src, i, |t|);
    while i < n && i < maxLen - 1 && ch != 0
      invariant 0 <= i <= |t| && i <= maxLen - 1 && i <= Max(n, 0)
      invariant Copied(dest[..], was, t, 0, i) && Unread(src[..], s, i)
      invariant ch == if i < |t| then t[i] else 0
      decreases |t| - i
    {
      CopiedNext(dest[..], was, t, 0, i);
      UnreadNext(src[..], s, i, i, ch);
      dest[i] := ch;
      i := i + 1;
      ReadsText(src[..], s, i);
      ch := Peek(src, i, |t|);
    }
    Terminates(dest[..], was, t, 0, i, maxLen);
    dest[i] := 0;
    CopyStops(t, 0, n, maxLen - 1, i);
    LeftIs(t, n);
  }

  lemma AllUnread(s: seq<Byte>)
    ensures forall i :: Unread(s, s, i)
  {
  }

  /** The first character RIGHT takes: `LEN - n`, computed at 32 bits, and at least 0. */
  function RightStart(len: nat, n: I32): nat { Max(Wrap32(len - n), 0) }

  /** What RIGHT takes. */
  function RightPart(t: seq<Byte>, n: I32): seq<Byte> { t[Min(RightStart(|t|, n), |t|)..] }

  lemma RightStops(t: seq<Byte>, n: I32, room: nat, i: nat)
    requires i <= room && Min(RightStart(|t|, n), |t|) + i <= |t|
    requires i == room || Min(RightStart(|t|, n), |t|) + i == |t|
    ensures var from := Min(RightStart(|t|, n), |t|); t[from..from + i] == Clip(RightPart(t, n), room)
  {
    hide Wrap32;
    var from := Min(RightStart(|t|, n), |t|);
    assert t[from..][..i] == t[from..from + i];
  }

  /** RIGHT: from there on, as far as the capacity goes; the destination runs behind the source. */
  method StrRight(dest: array<Byte>, src: array<Byte>, n: I32, maxLen: I32)
    requires Short(src[..]) && 1 <= maxLen <= dest.Length
    modifies dest
    ensures Holds(dest[..], old(dest[..]), Clip(RightPart(old(TextOf(src[..])), n), maxLen - 1), maxLen)
  {
    hide TextOf, Holds, Copied, Unread, Clip, RightPart, Wrap32;
    ghost var (s, was) := (src[..], dest[..]);
    ghost var t := TextOf(s);
    NoNul(s);
    assert Unread(s, s, |t|) by { AllUnread(s); }
    ReadsText(s, s, |t|);
    var len := StrLen(src);
    var diff := Wrap32(len - n);
    var start := if diff < 0 then 0 else diff;
    ghost var from := Min(start, |t|);
    CopiedNothing(was, t, from);
    assert Unread(s, s, start) by { AllUnread(s); }
    var si, di := start, 0;
    while si < len && di < maxLen - 1
      invariant si == start + di && 0 <= di <= maxLen - 1 && from + di <= |t|
      invariant Copied(dest[..], was, t, from, di) && Unread(src[..], s, si)
    {
      ReadsText(src[..], s, si);
      CopiedNext(dest[..], was, t, from, di);
      UnreadNext(src[..], s, si, di, t[si]);
      dest[di] := Peek(src, si, len);
      si := si + 1;
      di := di + 1;
    }
    Terminates(dest[..], was, t, from, di, maxLen);
    dest[di] := 0;
    RightStops(t, n, maxLen - 1, di);
  }

  lemma MidIs(t: seq<Byte>, len: int, pos: int)
    requires 1 <= pos <= |t| + 1
    ensures Mid(t, len, pos) == t[pos - 1..][..Min(Max(len, 0), |t| - (pos - 1))]
  {
  }

  /** MID: at most `len` characters from position `pos` on, as far as the capacity goes. */
  method StrMid(dest: array<Byte>, src: array<Byte>, len: I32, pos: I32, maxLen: I32)
    requires Terminated(src[..]) && 1 <= pos <= |TextOf(src[..])| + 1 && 1 <= maxLen <= dest.Length
    modifies dest
    ensures Holds(dest[..], old(dest[..]), Clip(Mid(old(TextOf(src[..])), len, pos), maxLen - 1), maxLen)
  {
    hide TextOf, Holds, Copied, Unread, Clip, Mid, Wrap32;
    ghost var (s, was) := (src[..], dest[..]);
    ghost var t := TextOf(s);
    NoNul(s);
    WrapFits(pos - 1);
    var offset := MidStart(pos);
    assert Unread(s, s, offset) by { AllUnread(s); }
    ReadsText(s, s, offset);
    CopiedNothing(was, t, offset);
    var di, si, count := 0, offset, 0;
    var ch := Peek(src, si, |t|);
    while count < len && di < maxLen - 1 && ch != 0
      invariant si == offset + di && count == di && 0 <= di <= maxLen - 1 && si <= |t| && di <= Max(len, 0)
      invariant Copied(dest[..], was, t, offset, di) && Unread(src[..], s, si)
      invariant ch == if si < |t| then t[si] else 0
      decreases |t| - si
    {
      CopiedNext(dest[..], was, t, offset, di);
      UnreadNext(src[..], s, si, di, ch);
      dest[di] := ch;
      di := di + 1;
      si := si + 1;
      count := count + 1;
      ReadsText(src[..], s, si);
      ch := Peek(src, si, |t|);
    }
    Terminates(dest[..], was, t, offset, di, maxLen);
    dest[di] := 0;
    CopyStops(t, offset, len, maxLen - 1, di);
    MidIs(t, len, pos);
  }

  // ----- REPLACE -----------------------------------------------------------

  lemma ClipJoins(a: seq<Byte>, b: seq<Byte>, room: nat)
    ensures Clip(a + b, room) == Clip(a, room) + Clip(b, room - |Clip(a, room)|)
  {
  }

  lemma ClipThree(a: seq<Byte>, b: seq<Byte>, c: seq<Byte>, room: nat)
    ensures var (x, y) := (Clip(a, room), Clip(b, room - |Clip(a, room)|));
            && |x| + |y| <= room
            && Clip(a + b + c, room) == x + y + Clip(c, room - |x| - |y|)
  {
    hide Clip;
    ClipJoins(a + b, c, room);
    ClipJoins(a, b, room);
    ClipFits(a, room);
    ClipFits(b, room - |Clip(a, room)|);
  }

  lemma ClipFits(t: seq<Byte>, room: nat)
    ensures |Clip(t, room)| <= room
  {
  }

  lemma ReplacedNonzero(s1: seq<Byte>, s2: seq<Byte>, l: int, at: nat, room: nat)
    requires Terminated(s1) && Terminated(s2) && at <= |TextOf(s1)|
    ensures var r := Clip(Replaced(TextOf(s1), TextOf(s2), l, at), room);
            |r| <= room && forall k :: 0 <= k < |r| ==> r[k] != 0
  {
    hide TextOf;
    NoNul(s1);
    NoNul(s2);
  }

  /** `src[start..end)` behind the first k bytes of buf, until its NUL or the limit. */
  method BoundedCopy(buf: array<Byte>, k: nat, src: array<Byte>, start: nat, end: I32, limit: nat) returns (k': nat)
    requires buf != src && Terminated(src[..]) && start <= |TextOf(src[..])| && start <= end
    requires k <= limit < buf.Length
    modifies buf
    ensures var t := TextOf(src[..]);
            var piece := Clip(t[start..Min(end, |t|)], limit - k);
            k' == k + |piece| && buf[..k'] == old(buf[..k]) + piece
  {
    hide TextOf, Clip;
    ghost var (t, before) := (TextOf(src[..]), buf[..k]);
    NoNul(src[..]);
    assert Unread(src[..], src[..], start) by { AllUnread(src[..]); }
    ReadsText(src[..], src[..], start);
    var i := start;
    k' := k;
    var ch := Peek(src, i, |t|);
    while i < end && k' < limit && ch != 0
      invariant start <= i <= |t| && i <= end && k' == k + (i - start) <= limit
      invariant buf[..k'] == before + t[start..i]
      invariant ch == if i < |t| then t[i] else 0
      decreases |t| - i
    {
      buf[k'] := ch;
      assert buf[..k' + 1] == before + t[start..i] + [t[i]];
      assert t[start..i + 1] == t[start..i] + [t[i]];
      k' := k' + 1;
      i := i + 1;
      ReadsText(src[..], src[..], i);
      ch := Peek(src, i, |t|);
    }
    PieceStops(t, start, end, limit - k, i);
  }

  lemma PieceStops(t: seq<Byte>, start: nat, end: int, room: nat, i: nat)
    requires start <= i <= |t| && i <= end && i - start <= room
    requires i >= end || i - start == room || i == |t|
    ensures t[start..i] == Clip(t[start..Min(end, |t|)], room)
  {
    assert t[start..Min(end, |t|)][..i - start] == t[start..i];
  }

  /** The scratch buffer's first n bytes onto dest. */
  method MemMove(dest: array<Byte>, buf: array<Byte>, n: nat)
    requires dest != buf && n <= dest.Length && n <= buf.Length
    modifies dest
    ensures dest[..n] == buf[..n] && dest[n..] == old(dest[n..])
  {
    for i := 0 to n
      invariant forall k :: 0 <= k < dest.Length ==> dest[k] == if k < i then buf[k] else old(dest[k])
    {
      dest[i] := buf[i];
    }
  }

  /** The result built in the scratch buffer. */
  method BuildReplaced(buf: array<Byte>, in1: array<Byte>, in2: array<Byte>, p0: nat, tail: nat, n1: nat, limit: nat)
    returns (k: nat)
    requires buf != in1 && buf != in2 && limit < buf.Length
    requires Terminated(in1[..]) && Terminated(in2[..])
    requires p0 <= tail <= n1 == |TextOf(in1[..])| <= I16_MAX && |TextOf(in2[..])| <= I32_MAX
    modifies buf
    ensures var (t, u) := (TextOf(in1[..]), TextOf(in2[..]));
            var result := Clip(t[..p0] + u + t[tail..], limit);
            k == |result| <= limit && buf[..k] == result
  {
    hide TextOf, Clip;
    ghost var (t, u) := (TextOf(in1[..]), TextOf(in2[..]));
    ClipThree(t[..p0], u, t[tail..], limit);
    assert t[0..p0] == t[..p0] && u[0..|u|] == u && t[tail..|t|] == t[tail..];
    ghost var x := Clip(t[..p0], limit);
    ghost var y := Clip(u, limit - |x|);
    ghost var z := Clip(t[tail..], limit - |x| - |y|);
    ClipFits(t[tail..], limit - |x| - |y|);
    k := BoundedCopy(buf, 0, in1, 0, p0, limit);
    assert buf[..k] == x;
    k := BoundedCopy(buf, k, in2, 0, I32_MAX, limit);
    assert buf[..k] == x + y;
    k := BoundedCopy(buf, k, in1, tail, n1, limit);
    assert buf[..k] == x + y + z;
  }

  /** REPLACE: dest may be either input, since the result is built aside. */
  method StrReplace(dest: array<Byte>, in1: array<Byte>, in2: array<Byte>, l: I32, p: I32, maxLen: I32)
    requires Short(in1[..]) && Terminated(in2[..]) && 1 <= maxLen <= dest.Length
    requires |TextOf(in2[..])| <= I32_MAX
    requires ReplaceAt(TextOf(in1[..]), p) + Max(l, 0) <= I32_MAX
    modifies dest
    ensures var (t, u) := (old(TextOf(in1[..])), old(TextOf(in2[..])));
            Holds(dest[..], old(dest[..]), Clip(Replaced(t, u, l, ReplaceAt(t, p)), maxLen - 1), maxLen)
  {
    hide TextOf, Clip, Holds, Wrap32;
    var buf := new Byte[maxLen];
    var n1 := StrLen(in1);
    var p0 := Min(Max(Wrap32(p - 1), 0), n1);
    var lc := Max(l, 0);
    WrapFits(p0 + lc);
    var tail := Min(Wrap32(p0 + lc), n1);
    var k := BuildReplaced(buf, in1, in2, p0, tail, n1, maxLen - 1);
    ReplacedNonzero(in1[..], in2[..], l, p0, maxLen - 1);
    ghost var (result, was) := (buf[..k], dest[..]);
    buf[k] := 0;
    assert buf[..k + 1] == result + [0];
    MemMove(dest, buf, k + 1);
    MovedHolds(dest[..], was, result, maxLen);
  }

  lemma MovedHolds(now: seq<Byte>, was: seq<Byte>, t: seq<Byte>, capacity: int)
    requires |t| < capacity <= |now| == |was| && forall k :: 0 <= k < |t| ==> t[k] != 0
    requires now[..|t| + 1] == t + [0] && now[|t| + 1..] == was[|t| + 1..]
    ensures Holds(now, was, t, capacity)
  {
    assert now[..|t|] == now[..|t| + 1][..|t|] && now[|t|] == now[..|t| + 1][|t|];
    TextWritten(now, t);
    assert now[capacity..] == now[|t| + 1..][capacity - |t| - 1..];
    assert was[capacity..] == was[|t| + 1..][capacity - |t| - 1..];
  }

  // ----- what RIGHT, REPLACE, INSERT and DELETE mean -----------------------

  lemma WrapFits(v: int)
    ensures I32_MIN <= v <= I32_MAX ==> Wrap32(v) == v
    ensures I32_MAX < v <= I32_MAX + 0x1_0000_0000 ==> Wrap32(v) == v - 0x1_0000_0000
    ensures I32_MIN - 0x1_0000_0000 <= v < I32_MIN ==> Wrap32(v) == v + 0x1_0000_0000
  {
  }

  /** Main result: what StrRight copies is the last n characters exactly when LEN - n fits 32 bits or the
      string is empty; for counts below that it is the whole string. */
  lemma RightExact(t: seq<Byte>, n: I32)
    requires |t| <= I16_MAX
    ensures RightPart(t, n) == Right(t, n) <==> |t| - n <= I32_MAX || t == []
    ensures |t| - n > I32_MAX ==> RightPart(t, n) == t
  {
    WrapFits(|t| - n);
    if |t| - n > I32_MAX && t != [] { assert |Right(t, n)| == 0; }
  }

  /** The position meant: P clamped into 1 to LEN + 1, from 0. */
  function Position(t: seq<Byte>, p: I32): nat { Min(Max(p, 1), |t| + 1) - 1 }

  /** Main result: REPLACE starts at the clamped position, except for the least count of all on a string
      that is not empty, which it takes for a position behind the end. */
  lemma PositionExact(t: seq<Byte>, p: I32)
    requires |t| <= I16_MAX
    ensures ReplaceAt(t, p) == Position(t, p) <==> p != I32_MIN || t == []
    ensures p == I32_MIN ==> ReplaceAt(t, p) == |t|
  {
    WrapFits(p - 1);
  }

  /** Main result: MID reads inside the string, its NUL included, exactly when the position is in 1..LEN + 1. */
  lemma MidWithin(t: seq<Byte>, pos: I32)
    requires |t| < I32_MAX
    ensures Within(MidStart(pos), t) <==> 1 <= pos <= |t| + 1
  {
    WrapFits(pos - 1);
  }

  /** Main result: REPLACE reads its tail inside the string exactly when the start plus the length fits 32
      bits, and then behind the replaced characters; else before the string. */
  lemma TailWithin(t: seq<Byte>, l: I32, at: nat)
    requires at <= |t| <= I16_MAX
    ensures Within(ReplaceTail(t, l, at), t) <==> at + Max(l, 0) <= I32_MAX
    ensures at + Max(l, 0) <= I32_MAX ==> ReplaceTail(t, l, at) == Min(at + Max(l, 0), |t|)
    ensures at + Max(l, 0) > I32_MAX ==> ReplaceTail(t, l, at) < 0
  {
    WrapFits(at + Max(l, 0));
  }

  /** REPLACE takes out L characters from the position on, as far as there are any and none for a negative L,
      and keeps what is before and behind them. */
  lemma ReplaceKeeps(t: seq<Byte>, u: seq<Byte>, l: int, at: nat)
    requires at <= |t|
    ensures var k := if l < 0 then 0 else if l > |t| - at then |t| - at else l;
            var r := Replaced(t, u, l, at);
            && |r| == |t| - k + |u| && r[..at] == t[..at] && r[at..at + |u|] == u && r[at + |u|..] == t[at + k..]
  {
  }

  /** INSERT is REPLACE of nothing, DELETE is REPLACE by nothing, and each undoes the other. */
  lemma InsertDelete(t: seq<Byte>, u: seq<Byte>, at: nat)
    requires at <= |t|
    ensures Replaced(t, u, 0, at) == t[..at] + u + t[at..]
    ensures Replaced(Replaced(t, u, 0, at), [], |u|, at) == t
  {
    var r := Replaced(t, u, 0, at);
    assert r[..at] == t[..at] && r[at + |u|..] == t[at..];
    assert t == t[..at] + t[at..];
  }

  /** What LEFT, RIGHT and MID take, told by its length and its place: no more than there is, and nothing for a
      negative count; and what a capacity leaves of a text. */
  lemma PartsAre(t: seq<Byte>, n: int, pos: int)
    requires 1 <= pos <= |t| + 1
    ensures var k := if n < 0 then 0 else if n > |t| then |t| else n;
            && |Left(t, n)| == k && (forall i :: 0 <= i < k ==> Left(t, n)[i] == t[i])
            && |Right(t, n)| == k && (forall i :: 0 <= i < k ==> Right(t, n)[i] == t[|t| - k + i])
    ensures var k := if n < 0 then 0 else if n > |t| - pos + 1 then |t| - pos + 1 else n;
            |Mid(t, n, pos)| == k && forall i :: 0 <= i < k ==> Mid(t, n, pos)[i] == t[pos - 1 + i]
    ensures n >= 0 ==>
              && |Clip(t, n)| == (if n > |t| then |t| else n)
              && forall i :: 0 <= i < |Clip(t, n)| ==> Clip(t, n)[i] == t[i]
  {
  }

  /** LEFT and RIGHT of complementary counts make up the string; MID is RIGHT of LEFT. */
  lemma PartsOfString(t: seq<Byte>, n: nat, l: nat)
    requires n + l <= |t|
    ensures Left(t, n) + Right(t, |t| - n) == t
    ensures Mid(t, l, n + 1) == Right(Left(t, n + l), l)
  {
    assert Left(t, n + l) == t[..n + l];
  }
}
