/** File handles: seeking, and the loops that turn short transfers into whole ones. */
module FileHandle {
  import opened MachineInts
  import opened ByteRanges

  datatype FsError = Errno | WroteNothing | InvalidUtf8

  /** A file's contents and a handle's position. */
  datatype FileState = FileState(content: seq<byte>, pos: nat)

  /** The file after `data` has been written at the position, and the position behind it. */
  function Wrote(s: FileState, data: seq<byte>): FileState {
    FileState(Overwrite(s.content, s.pos, data), s.pos + |data|)
  }

  /** Writing one piece after another is writing both at once. */
  lemma WroteConcat(s: FileState, a: seq<byte>, b: seq<byte>)
    ensures Wrote(Wrote(s, a), b) == Wrote(s, a + b)
  {
    OverwriteConcat(s.content, s.pos, a, b);
  }

  lemma WroteMore(s: FileState, data: seq<byte>, i: nat, m: nat)
    requires i + m <= |data|
    ensures Wrote(Wrote(s, data[..i]), data[i..][..m]) == Wrote(s, data[..i + m])
  {
    WroteConcat(s, data[..i], data[i..][..m]);
    assert data[..i] + data[i..][..m] == data[..i + m];
  }

  // ------------------------------------------------------------------------------------------
  // Laws of whole transfers

  function Concat(pieces: seq<seq<byte>>): seq<byte> {
    if pieces == [] then [] else Concat(pieces[..|pieces| - 1]) + pieces[|pieces| - 1]
  }

  lemma ConcatMore(pieces: seq<seq<byte>>, i: nat)
    requires i < |pieces|
    ensures Concat(pieces[..i + 1]) == Concat(pieces[..i]) + pieces[i]
  {
    assert pieces[..i + 1][..i] == pieces[..i];
  }

  lemma {:induction false} ConcatPrefix(pieces: seq<seq<byte>>, i: nat)
    requires i <= |pieces|
    ensures Concat(pieces[..i]) <= Concat(pieces)
    decreases |pieces| - i
  {
    if i == |pieces| {
      assert pieces[..i] == pieces;
    } else {
      ConcatMore(pieces, i);
      ConcatPrefix(pieces, i + 1);
    }
  }

  /** The file of handle state `s` after some prefix of `data` has been written. */
  ghost predicate WrotePrefix(s: FileState, data: seq<byte>, t: FileState) {
    exists m :: 0 <= m <= |data| && t == Wrote(s, data[..m])
  }

  lemma PrefixPlus(all: seq<byte>, before: seq<byte>, piece: seq<byte>, m: nat)
    requires before + piece <= all && m <= |piece|
    ensures |before| + m <= |all| && all[..|before| + m] == before + piece[..m]
  {
    assert forall k :: 0 <= k < |before| + m ==> all[k] == (before + piece)[k];
  }

  lemma PrefixOfMore(s: FileState, pieces: seq<seq<byte>>, i: nat, t: FileState)
    requires i < |pieces| && WrotePrefix(Wrote(s, Concat(pieces[..i])), pieces[i], t)
    ensures WrotePrefix(s, Concat(pieces), t)
  {
    hide Wrote, Concat;
    var before := Concat(pieces[..i]);
    var m :| 0 <= m <= |pieces[i]| && t == Wrote(Wrote(s, before), pieces[i][..m]);
    WroteConcat(s, before, pieces[i][..m]);
    ConcatMore(pieces, i);
    ConcatPrefix(pieces, i + 1);
    PrefixPlus(Concat(pieces), before, pieces[i], m);
  }

  /** A written range reads back as written; bytes outside it are as before; the file grows as needed. */
  lemma WriteIsLocal(s: FileState, data: seq<byte>)
    ensures var t := Wrote(s, data);
            && Available(t.content, s.pos, |data|) == data
            && (data != [] ==> |t.content| == Max(|s.content|, s.pos + |data|))
            && (data == [] ==> t == s)
            && (forall k :: 0 <= k < |s.content| && !(s.pos <= k < s.pos + |data|) ==>
                  t.content[k] == s.content[k])
            && (forall k :: |s.content| <= k < s.pos && data != [] ==> t.content[k] == 0)
  {
    var t := Wrote(s, data);
    assert forall k :: 0 <= k < |data| ==> t.content[s.pos + k] == data[k];
  }

  // ------------------------------------------------------------------------------------------
  // Handles

  datatype SeekFrom = Start(n: u64) | End(d: int) | Current(d: int)
  {
    /** End and Current carry an i64. */
    predicate Valid() {
      !Start? ==> -TWO_63 <= d < TWO_63
    }
  }

  datatype Origin = SeekSet | SeekEnd | SeekCur

  /** `to_raw`: a start offset is reinterpreted as a signed number. */
  function ToRaw(p: SeekFrom): (int, Origin) {
    match p
    case Start(n) => (AsI64(n), SeekSet)
    case End(d) => (d, SeekEnd)
    case Current(d) => (d, SeekCur)
  }

  /** The signed reinterpretation is a faithful file offset exactly below 2^63. */
  lemma StartOffsetFaithfulIff(n: u64)
    ensures ToRaw(Start(n)).0 == n <==> n < TWO_63
    ensures n >= TWO_63 ==> ToRaw(Start(n)).0 < 0
  {
  }

  /** A call of the open file as it came back: bytes asked for and moved, or a seek's target. */
  datatype FileCall =
    | Reading(ok: bool, asked: nat, moved: nat)
    | Writing(ok: bool, asked: nat, moved: nat)
    | Seeking(ok: bool, offset: int, origin: Origin)
  {
    /** What is wrong with the call: it failed, or it was to write some data and moved nothing. */
    function Trouble(): Option<FsError> {
      if !ok then Some(Errno)
      else if Writing? && asked > 0 && moved == 0 then Some(WroteNothing)
      else None
    }
  }

  /** The first trouble there was in a run of calls. */
  function FirstTrouble(calls: seq<FileCall>): Option<FsError> {
    if calls == [] then None
    else
      match FirstTrouble(calls[..|calls| - 1])
      case Some(e) => Some(e)
      case None => calls[|calls| - 1].Trouble()
  }

  /** What an operation has to answer after these calls: their first trouble, or else `value`. */
  function Verdict<T>(calls: seq<FileCall>, value: T): Result<T, FsError> {
    match FirstTrouble(calls)
    case Some(e) => Err(e)
    case None => Ok(value)
  }

  lemma {:induction false} TroubleConcat(a: seq<FileCall>, b: seq<FileCall>)
    ensures FirstTrouble(a + b) == if FirstTrouble(a).Some? then FirstTrouble(a) else FirstTrouble(b)
  {
    if b == [] {
      assert a + b == a;
    } else {
      var last := |b| - 1;
      TroubleConcat(a, b[..last]);
      assert (a + b)[..|a| + last] == a + b[..last];
    }
  }

  lemma TroubleOfOne(c: FileCall)
    ensures FirstTrouble([c]) == c.Trouble()
  {
    assert FirstTrouble([c][..0]) == None;
  }

  /** There is no trouble exactly when every call succeeded and every write of some data moved some. */
  lemma {:induction false} TroubleFreeIff(calls: seq<FileCall>)
    ensures FirstTrouble(calls) == None
            <==> forall c <- calls :: c.ok && (c.Writing? && c.asked > 0 ==> c.moved > 0)
  {
    if calls != [] {
      var last := |calls| - 1;
      TroubleFreeIff(calls[..last]);
      assert calls == calls[..last] + [calls[last]];
    }
  }

  /** A growable byte vector. */
  class ByteVec {
    var elems: seq<byte>

    constructor ()
      ensures elems == []
    {
      elems := [];
    }

    method ExtendFromSlice(more: seq<byte>)
      modifies this
      ensures elems == old(elems) + more
    {
      elems := elems + more;
    }
  }

  /**
   * lwext4's open file. Transfers may be short and calls may fail; which happens is left open. The
   * proof keeps a record of the calls.
   */
  class Ext4File {
    var content: seq<byte>
    var fpos: nat
    ghost var calls: seq<FileCall>

    /** At least one byte unless the buffer is empty or the position is at or past the end. */
    method Fread(buf: array<byte>) returns (ok: bool, rcnt: nat)
      modifies this`fpos, this`calls, buf
      ensures calls == old(calls) + [Reading(ok, buf.Length, rcnt)]
      ensures ok ==>
                var got := Available(content, old(fpos), buf.Length);
                && rcnt <= |got| && (rcnt == 0 ==> got == [])
                && buf[..rcnt] == got[..rcnt]
                && fpos == old(fpos) + rcnt
    {
      if * {
        fpos, calls := *, calls + [Reading(false, buf.Length, 0)];
        return false, 0;
      }
      var got := Available(content, fpos, buf.Length);
      rcnt :| 0 <= rcnt <= |got| && (rcnt == 0 ==> got == []);
      forall k | 0 <= k < rcnt {
        buf[k] := got[k];
      }
      fpos, calls := fpos + rcnt, calls + [Reading(true, buf.Length, rcnt)];
      ok := true;
    }

    /** A prefix of `data` is written at the position, also when the call fails midway. */
    method Fwrite(data: seq<byte>) returns (ok: bool, wcnt: nat)
      modifies this
      ensures calls == old(calls) + [Writing(ok, |data|, wcnt)]
      ensures wcnt <= |data|
      ensures FileState(content, fpos) == Wrote(FileState(old(content), old(fpos)), data[..wcnt])
    {
      wcnt :| 0 <= wcnt <= |data|;
      content := Overwrite(content, fpos, data[..wcnt]);
      ok := *;
      fpos, calls := fpos + wcnt, calls + [Writing(ok, |data|, wcnt)];
    }

    /** A failed seek leaves the position; a negative target is refused. */
    method Fseek(offset: int, origin: Origin) returns (ok: bool)
      modifies this`fpos, this`calls
      ensures calls == old(calls) + [Seeking(ok, offset, origin)]
      ensures !ok ==> fpos == old(fpos)
      ensures ok && origin.SeekSet? ==> 0 <= offset && fpos == offset
      ensures ok && origin.SeekCur? ==> 0 <= old(fpos) + offset && fpos == old(fpos) + offset
    {
      var target := if origin.SeekSet? then offset else fpos + offset;
      if origin.SeekEnd? {
        target := *;
      }
      ok := *;
      ok := ok && target >= 0;
      if ok {
        fpos := target;
      }
      calls := calls + [Seeking(ok, offset, origin)];
    }
  }

  /** `grown` is `before` followed by some prefix of `content`. */
  ghost predicate GrownByPrefix(before: seq<byte>, content: seq<byte>, grown: seq<byte>) {
    exists m :: 0 <= m <= |content| && grown == before + content[..m]
  }

  class File {
    const inner: Ext4File

    constructor (inner: Ext4File)
      ensures this.inner == inner
    {
      this.inner := inner;
    }

    ghost function State(): FileState
      reads inner
    {
      FileState(inner.content, inner.fpos)
    }

    method Read(buf: array<byte>) returns (r: Result<nat, FsError>, ghost c: FileCall)
      modifies inner`fpos, inner`calls, buf
      ensures inner.calls == old(inner.calls) + [c]
      ensures c.Reading? && c.asked == buf.Length && r == if c.ok then Ok(c.moved) else Err(Errno)
      ensures r.Ok? ==>
                var got := Available(inner.content, old(inner.fpos), buf.Length);
                && r.value <= |got| && (r.value == 0 ==> got == [])
                && buf[..r.value] == got[..r.value]
                && inner.fpos == old(inner.fpos) + r.value
    {
      var ok, rcnt := inner.Fread(buf);
      c := Reading(ok, buf.Length, rcnt);
      r := if ok then Ok(rcnt) else Err(Errno);
    }

    method Write(data: seq<byte>) returns (r: Result<nat, FsError>, ghost c: FileCall)
      modifies inner
      ensures inner.calls == old(inner.calls) + [c]
      ensures c.Writing? && c.asked == |data| && r == if c.ok then Ok(c.moved) else Err(Errno)
      ensures c.moved <= |data| && State() == Wrote(old(State()), data[..c.moved])
    {
      var ok, wcnt := inner.Fwrite(data);
      c := Writing(ok, |data|, wcnt);
      r := if ok then Ok(wcnt) else Err(Errno);
    }

    /**
     * A seek to byte `n` arrives there or does not move; from 2^63 on it always fails. It fails
     * only when lwext4 refuses it, and lwext4 is given the distance and the origin asked for.
     */
    method Seek(p: SeekFrom) returns (r: Result<nat, FsError>, ghost c: FileCall)
      requires p.Valid()
      modifies inner`fpos, inner`calls
      ensures inner.calls == old(inner.calls) + [c] && c.Seeking? && c.ok == r.Ok?
      ensures p.Start? && p.n < TWO_63 ==> c.origin == SeekSet && c.offset == p.n
      ensures p.End? ==> c.origin == SeekEnd && c.offset == p.d
      ensures p.Current? ==> c.origin == SeekCur && c.offset == p.d
      ensures r.Err? ==> r == Err(Errno) && inner.fpos == old(inner.fpos)
      ensures r.Ok? ==> r.value == inner.fpos
      ensures p.Start? && r.Ok? ==> p.n < TWO_63 && inner.fpos == p.n
      ensures p.Current? && r.Ok? ==> inner.fpos == old(inner.fpos) + p.d
    {
      if p.Start? {
        StartOffsetFaithfulIff(p.n);
      }
      hide AsI64;
      var (offset, origin) := ToRaw(p);
      var ok := inner.Fseek(offset, origin);
      c := Seeking(ok, offset, origin);
      if !ok {
        return Err(Errno), c;
      }
      r := Ok(inner.fpos);
    }

    /**
     * Appends the whole contents to `buf` and returns their length, from any starting position
     * and over any schedule of short reads, unless a call of lwext4 fails. Then `buf` has grown by
     * a prefix of the contents. The file never changes.
     */
    method ReadToEnd(buf: ByteVec) returns (r: Result<nat, FsError>, ghost own: seq<FileCall>)
      modifies inner`fpos, inner`calls, buf
      ensures inner.calls == old(inner.calls) + own && r == Verdict(own, |inner.content|)
      ensures r.Ok? ==> buf.elems == old(buf.elems) + inner.content
      ensures r.Ok? ==> inner.fpos == |inner.content|
      ensures r.Err? ==> GrownByPrefix(old(buf.elems), inner.content, buf.elems)
    {
      hide Available, FirstTrouble;
      ghost var content := inner.content;
      assert buf.elems == buf.elems + content[..0];
      var s, c := Seek(Start(0));
      own := [c];
      TroubleOfOne(c);
      if s.Err? {
        return Err(s.error), own;
      }
      var totalRead := 0;
      var chunk := new byte[8192];
      while true
        invariant inner.content == content
        invariant inner.calls == old(inner.calls) + own && FirstTrouble(own) == None
        invariant 0 <= totalRead <= |content| && inner.fpos == totalRead
        invariant buf.elems == old(buf.elems) + content[..totalRead]
        decreases |content| - totalRead
      {
        var n;
        n, c := Read(chunk);
        TroubleConcat(own, [c]);
        TroubleOfOne(c);
        own := own + [c];
        if n.Err? {
          return Err(n.error), own;
        }
        if n.value == 0 {
          break;
        }
        buf.ExtendFromSlice(chunk[..n.value]);
        assert content[..totalRead] + chunk[..n.value] == content[..totalRead + n.value];
        totalRead := totalRead + n.value;
      }
      assert content[..totalRead] == content;
      r := Ok(totalRead);
    }

    /** The text is replaced exactly when no call of lwext4 failed and the whole contents decode. */
    method ReadToString(decode: seq<byte> -> Option<string>, text: string)
      returns (r: Result<nat, FsError>, text': string, ghost own: seq<FileCall>)
      modifies inner`fpos, inner`calls
      ensures inner.calls == old(inner.calls) + own
      ensures r == if FirstTrouble(own) == None && decode(inner.content) == None then Err(InvalidUtf8)
                   else Verdict(own, |inner.content|)
      ensures if r.Ok? then decode(inner.content) == Some(text') else text' == text
    {
      text' := text;
      var bytes := new ByteVec();
      var n;
      n, own := ReadToEnd(bytes);
      if n.Err? {
        return Err(n.error), text, own;
      }
      assert bytes.elems == inner.content;
      match decode(bytes.elems)
      case None => r := Err(InvalidUtf8);
      case Some(t) => r, text' := n, t;
    }

    /**
     * Writes all of `data` as if at once, over any schedule of short writes, unless a call of
     * lwext4 fails or moves nothing. Then exactly a prefix has been written and the position is
     * behind it.
     */
    method WriteAll(data: seq<byte>) returns (r: Result<(), FsError>, ghost own: seq<FileCall>)
      modifies inner
      ensures inner.calls == old(inner.calls) + own && r == Verdict(own, ())
      ensures r.Ok? ==> State() == Wrote(old(State()), data)
      ensures r.Err? ==> WrotePrefix(old(State()), data, State())
    {
      hide FirstTrouble;
      var written := 0;
      own := [];
      TroubleFreeIff(own);
      assert State() == Wrote(old(State()), data[..0]);
      while written < |data|
        invariant 0 <= written <= |data|
        invariant inner.calls == old(inner.calls) + own && FirstTrouble(own) == None
        invariant State() == Wrote(old(State()), data[..written])
      {
        var n, c := Write(data[written..]);
        TroubleConcat(own, [c]);
        TroubleOfOne(c);
        own := own + [c];
        WroteMore(old(State()), data, written, c.moved);
        if n.Err? {
          return Err(n.error), own;
        }
        if n.value == 0 {
          return Err(WroteNothing), own;
        }
        written := written + n.value;
      }
      assert data[..written] == data;
      r := Ok(());
    }
  }

  /**
   * `write_all` of each piece in turn. When no call fails or moves nothing, the file is as after
   * one `write_all` of the concatenation, whatever the schedules of short writes; at the first
   * trouble exactly a prefix of the concatenation has been written and the position is behind it.
   */
  method WriteEach(f: File, pieces: seq<seq<byte>>) returns (r: Result<(), FsError>, ghost own: seq<FileCall>)
    modifies f.inner
    ensures f.inner.calls == old(f.inner.calls) + own && r == Verdict(own, ())
    ensures r.Ok? ==> f.State() == Wrote(old(f.State()), Concat(pieces))
    ensures r.Err? ==> WrotePrefix(old(f.State()), Concat(pieces), f.State())
  {
    hide FirstTrouble;
    ghost var start := f.State();
    own := [];
    TroubleFreeIff(own);
    assert pieces[..0] == [] && start == Wrote(start, []);
    for i := 0 to |pieces|
      invariant f.inner.calls == old(f.inner.calls) + own && FirstTrouble(own) == None
      invariant f.State() == Wrote(start, Concat(pieces[..i]))
    {
      ghost var before := Concat(pieces[..i]);
      var w, more := f.WriteAll(pieces[i]);
      TroubleConcat(own, more);
      own := own + more;
      if w.Err? {
        PrefixOfMore(start, pieces, i, f.State());
        return w, own;
      }
      WroteConcat(start, before, pieces[i]);
      ConcatMore(pieces, i);
    }
    assert pieces[..|pieces|] == pieces;
    r := Ok(());
  }

  /**
   * The round trip: pieces written to an empty file by `write_all` calls and read back by
   * `read_to_end` into an empty vector come back as their concatenation, in one piece, unless a
   * call fails or a write moves nothing.
   */
  method WriteThenReadBack(f: File, pieces: seq<seq<byte>>)
    returns (r: Result<nat, FsError>, buf: ByteVec, ghost own: seq<FileCall>)
    requires f.State() == FileState([], 0)
    modifies f.inner
    ensures fresh(buf)
    ensures f.inner.calls == old(f.inner.calls) + own && r == Verdict(own, |Concat(pieces)|)
    ensures r.Ok? ==> buf.elems == Concat(pieces)
    ensures r.Ok? ==> f.State() == FileState(Concat(pieces), |Concat(pieces)|)
  {
    hide FirstTrouble;
    buf := new ByteVec();
    var w;
    w, own := WriteEach(f, pieces);
    if w.Err? {
      return Err(w.error), buf, own;
    }
    ghost var more;
    r, more := f.ReadToEnd(buf);
    TroubleConcat(own, more);
    own := own + more;
  }
}
