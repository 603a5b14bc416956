/** Bounding the output of child processes (internal/compose/runner.go): the writers
    that keep the end or the beginning of what is written, and the log download that
    stops at a limit. Bytes are characters. */
module Streams {

  /** The end and the beginning of a text. */
  function Last(s: string, n: nat): string {
    if |s| <= n then s else s[|s| - n..]
  }

  function First(s: string, n: nat): string {
    if |s| <= n then s else s[..n]
  }

  /** Keeps the last bytes written, in place. */
  class TailBuffer {
    const contents: array<char>
    var size: nat
    var truncated: bool
    /** Everything written, and whether a single write ever filled the buffer. */
    ghost var written: string
    ghost var filled: bool

    constructor (max: int)
      ensures Valid() && fresh(contents) && contents.Length == if max < 1 then 1 else max
      ensures written == "" && !filled
    {
      contents := new char[if max < 1 then 1 else max];
      size, truncated := 0, false;
      written, filled := "", false;
    }

    ghost predicate Valid()
      reads this, contents
    {
      && contents.Length > 0 && size <= contents.Length
      && contents[..size] == Last(written, contents.Length)
      && (truncated <==> |written| > contents.Length || filled)
    }

    function Bytes(): string
      reads this, contents
      requires size <= contents.Length
    {
      contents[..size]
    }

    /** Moves the bytes from an offset on to the front. */
    method ShiftDown(overflow: nat)
      requires overflow <= size <= contents.Length
      modifies contents
      ensures contents[..size - overflow] == old(contents[..size])[overflow..]
    {
      var i := 0;
      while i < size - overflow
        invariant i <= size - overflow
        invariant forall k | 0 <= k < i :: contents[k] == old(contents[k + overflow])
        invariant forall k | i <= k < contents.Length :: contents[k] == old(contents[k])
      {
        contents[i] := contents[i + overflow];
        i := i + 1;
      }
    }

    method CopyTo(start: nat, bytes: string)
      requires start + |bytes| <= contents.Length
      modifies contents
      ensures contents[..start + |bytes|] == old(contents[..start]) + bytes
    {
      var i := 0;
      while i < |bytes|
        invariant i <= |bytes|
        invariant forall k | 0 <= k < start :: contents[k] == old(contents[k])
        invariant forall k | 0 <= k < i :: contents[start + k] == bytes[k]
      {
        contents[start + i] := bytes[i];
        i := i + 1;
      }
    }

    /** A write that leaves nothing of what was there. */
    method Fill(bytes: string)
      requires Valid() && |bytes| >= contents.Length
      modifies this, contents
      ensures Valid() && written == old(written) + bytes && filled
    {
      LastOfLong(written, bytes, contents.Length);
      size := contents.Length;
      CopyTo(0, bytes[|bytes| - size..]);
      truncated, filled, written := true, true, written + bytes;
    }

    /** A write that keeps some of it. */
    method Append(bytes: string)
      requires Valid() && |bytes| < contents.Length
      modifies this, contents
      ensures Valid() && written == old(written) + bytes && filled == old(filled)
    {
      LastOfSum(written, bytes, contents.Length);
      var overflow := size + |bytes| - contents.Length;
      if overflow > 0 {
        ShiftDown(overflow);
        size := size - overflow;
        truncated := true;
      }
      CopyTo(size, bytes);
      size := size + |bytes|;
      written := written + bytes;
    }

    /** Afterwards the buffer holds the end of everything written. It says truncated
        if that is longer than the buffer, and also after any write as long as it. */
    method Write(bytes: string) returns (n: nat)
      requires Valid()
      modifies this, contents
      ensures Valid() && n == |bytes|
      ensures written == old(written) + bytes && (filled <==> old(filled) || |bytes| >= contents.Length)
      ensures Bytes() == Last(written, contents.Length)
      ensures Bytes() == if |written| <= contents.Length then written else written[|written| - contents.Length..]
      ensures truncated <==> |written| > contents.Length || filled
    {
      n := |bytes|;
      if n >= contents.Length {
        Fill(bytes);
      } else if n > 0 {
        Append(bytes);
      }
    }
  }

  lemma LastOfLong(s: string, t: string, n: nat)
    requires |t| >= n
    ensures Last(s + t, n) == t[|t| - n..]
  {
  }

  lemma LastOfSum(s: string, t: string, n: nat)
    requires |t| < n
    ensures Last(s + t, n) == Last(Last(s, n), n - |t|) + t
  {
  }

  /** Keeps the first bytes written. */
  class BoundedBuffer {
    const max: nat
    var contents: string
    var truncated: bool
    ghost var written: string

    constructor (max: int)
      ensures Valid() && this.max == (if max < 1 then 1 else max) && written == ""
    {
      this.max := if max < 1 then 1 else max;
      contents, truncated, written := "", false, "";
    }

    ghost predicate Valid()
      reads this
    {
      contents == First(written, max) && (truncated <==> |written| > max)
    }

    method Write(bytes: string) returns (n: nat)
      requires Valid()
      modifies this
      ensures Valid() && n == |bytes| && written == old(written) + bytes
      ensures contents == First(written, max) && (truncated <==> |written| > max)
      ensures contents == if |written| <= max then written else written[..max]
    {
      n := |bytes|;
      if |bytes| == 0 {
        return;
      }
      var remaining := max - |contents|;
      if remaining <= 0 {
        truncated := true;
      } else if |bytes| > remaining {
        contents := contents + bytes[..remaining];
        truncated := true;
      } else {
        contents := contents + bytes;
      }
      written := written + bytes;
    }
  }

  datatype Outcome = Delivered | EndOfFile | TooLarge

  /** A log download. The process writes the text; its pipe hands over as many bytes
      as it likes at a time, at least one as long as there are any, and may report
      the end together with the last ones. */
  class LogStream {
    const text: string
    const maxBytes: int
    /** How many bytes the n-th read of the pipe is willing to hand over, and whether it
        reports the end with the last one. */
    const sizes: nat -> nat
    const eager: bool
    var calls: nat
    var position: nat
    var readBytes: nat
    var failed: bool
    ghost var delivered: string

    constructor (text: string, maxBytes: int, sizes: nat -> nat, eager: bool)
      ensures Valid() && this.text == text && this.maxBytes == maxBytes && delivered == "" && !failed
    {
      this.text, this.maxBytes, this.sizes, this.eager := text, maxBytes, sizes, eager;
      calls, position, readBytes, failed, delivered := 0, 0, 0, false, "";
    }

    ghost predicate Valid()
      reads this
    {
      && readBytes <= |text| && delivered == text[..readBytes]
      && (maxBytes > 0 ==> readBytes <= maxBytes)
      && (failed ==> 0 < maxBytes == readBytes < |text|)
      && readBytes <= position <= |text| && (!failed ==> position == readBytes)
    }

    /** What the pipe hands over. */
    method ReadPipe(room: nat) returns (bytes: string, end: bool)
      requires room > 0 && position <= |text|
      modifies this`calls, this`position
      ensures old(position) <= position <= |text| && bytes == text[old(position)..position] && |bytes| <= room
      ensures old(position) < |text| ==> bytes != ""
      ensures bytes == "" ==> end
      ensures end ==> position == |text|
    {
      var left := |text| - position;
      var n := if sizes(calls) < 1 then 1 else sizes(calls);
      n := if n > room then room else n;
      n := if n > left then left else n;
      calls := calls + 1;
      bytes := text[position..position + n];
      position := position + n;
      end := n == 0 || (eager && position == |text|);
    }

    /** Delivers the next part of the text. A limit that is reached is exceeded exactly
        if there is more. */
    method Read(room: nat) returns (bytes: string, outcome: Outcome)
      requires Valid()
      modifies this
      ensures Valid() && delivered == old(delivered) + bytes && |bytes| <= room
      ensures outcome.EndOfFile? ==> delivered == text
      ensures outcome.TooLarge? <==> failed
      ensures old(failed) ==> failed && bytes == ""
      ensures outcome.Delivered? && room > 0 ==> bytes != ""
    {
      if failed {
        return "", TooLarge;
      }
      if room == 0 {
        return "", Delivered;
      }
      var end := false;
      if maxBytes > 0 && readBytes >= maxBytes {
        bytes, end := ReadPipe(1);
        if bytes != "" {
          failed := true;
          return "", TooLarge;
        }
        return "", EndOfFile;
      }
      var remaining := maxBytes - readBytes;
      var granted := if remaining > 0 && room > remaining then remaining else room;
      bytes, end := ReadPipe(granted);
      readBytes := readBytes + |bytes|;
      delivered := delivered + bytes;
      outcome := if end then EndOfFile else Delivered;
    }

    /** A whole download: it delivers the text up to the limit, and fails exactly if
        there was more. */
    method Download(room: nat) returns (outcome: Outcome)
      requires Valid() && !failed && delivered == "" && room > 0
      modifies this
      ensures maxBytes <= 0 ==> delivered == text && outcome.EndOfFile?
      ensures maxBytes > 0 ==> delivered == First(text, maxBytes) && (outcome.TooLarge? <==> |text| > maxBytes)
      ensures !outcome.Delivered?
    {
      outcome := Delivered;
      while outcome.Delivered?
        invariant Valid() && (outcome.TooLarge? <==> failed) && (outcome.EndOfFile? ==> delivered == text)
        decreases |text| - readBytes, outcome.Delivered?
      {
        var bytes;
        bytes, outcome := Read(room);
      }
    }
  }
}
