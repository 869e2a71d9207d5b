/** The state behind one printf call and its string sink (src/printf.c:54-163). */
module PrintfSink {
  import opened Machine

  datatype Ret = OK | END | ERR

  /** A buffer of which `room` characters may be used holds that much of the output, and behind it what it held. */
  ghost predicate Holds(b: string, out: string, pos: nat, room: nat, initial: string) {
    |b| == |initial| && pos == Min(|out|, room) <= |b| && b == out[..pos] + initial[pos..]
  }

  /** Copying what fits of more text behind it keeps that so. */
  lemma Appended(b: string, out: string, pos: nat, room: nat, initial: string, text: string)
    requires Holds(b, out, pos, room, initial) && (room <= |b| || |out| + |text| <= |b|)
    ensures pos <= room
    ensures var copy := if |text| < room - pos then |text| else room - pos;
      && pos + copy <= |b|
      && Holds(b[..pos] + text[..copy] + b[pos + copy..], out + text, pos + copy, room, initial)
      && (copy == 0 ==> Holds(b, out + text, pos, room, initial))
  {
    var copy := if |text| < room - pos then |text| else room - pos;
    assert b[..pos] == out[..pos] && b[pos + copy..] == initial[pos + copy..];
    assert (out + text)[..pos + copy] == out[..pos] + text[..copy];
    assert copy == 0 ==> b == b[..pos] + text[..copy] + b[pos + copy..];
  }

  class VprintfInfo {
    var written: SizeT
    var rc: Ret

    // The caller's buffer, how much of it is used, and how much may still be used.
    const buffer: array<char>
    var pos: nat
    var bufSize: nat

    // Everything handed to the sink so far; the room at the start; the buffer at the start.
    ghost var out: string
    ghost const room: nat
    ghost const initial: string

    /** The buffer holds as much of the output as fits and is untouched behind that. */
    ghost predicate Valid()
      reads this, buffer
    {
      && Holds(buffer[..], out, pos, room, initial)
      && bufSize == room - pos
      && written == |out| % TWO_64
    }

    /** The buffer has the room it is said to have, or at least room for `more` characters. */
    ghost predicate Fits(more: int)
      reads this
    {
      room <= buffer.Length || |out| + more <= buffer.Length
    }

    constructor (buffer: array<char>, bufSize: nat)
      ensures Valid() && out == "" && rc == OK
      ensures this.buffer == buffer && room == bufSize && initial == buffer[..]
    {
      this.buffer, this.bufSize, pos := buffer, bufSize, 0;
      written, rc := 0, OK;
      out, room, initial := "", bufSize, buffer[..];
    }

    method WriteStr(text: string)
      requires Valid() && Fits(|text|)
      modifies this, buffer
      ensures Valid() && out == old(out) + text && rc == old(rc)
    {
      hide Holds, Min;
      WrappedSum(|out|, |text|);
      Appended(buffer[..], out, pos, room, initial, text);
      written := (written + |text|) % TWO_64;
      out := out + text;
      if bufSize == 0 || |text| == 0 {
        return;
      }
      var copy := if |text| < bufSize then |text| else bufSize;
      CopyInto(buffer, pos, text[..copy]);
      pos := pos + copy;
      bufSize := bufSize - copy;
    }

    lemma WrappedSum(a: nat, b: nat)
      ensures (a % TWO_64 + b) % TWO_64 == (a + b) % TWO_64
    {
    }

    /** Writes in chunks of at most 64 characters. */
    method Padding(p: char, len: int)
      requires Valid() && rc == OK && Fits(Max(len, 0))
      modifies this, buffer
      ensures Valid() && out == old(out) + Repeat(p, len) && rc == OK
    {
      hide Holds;
      if len <= 0 {
        return;
      }
      var str := Repeat(p, 64);
      var rest := len;
      while rest > 0
        invariant Valid() && rc == OK && 0 <= rest <= len
        invariant out == old(out) + Repeat(p, len - rest)
      {
        var l := if rest >= 64 then 64 else rest;
        rest := rest - l;
        WriteStr(str[..l]);
        assert Repeat(p, len - rest - l) + str[..l] == Repeat(p, len - rest);
        if rc != OK {
          return;
        }
      }
    }
  }
}
