/** The request side of one connection: the 1024-byte buffer that a single
    read fills, its decoding into text, and the extraction of the request
    line (the first line of that text). */
module Request {

  newtype byte = x: int | 0 <= x < 256

  /** Capacity of the buffer handed to the single read of a connection. */
  const BufferSize: nat := 1024

  /** The byte value of '\n'. */
  const LineFeed: byte := 10

  /** U+FFFD, the marker lossy decoding puts in place of undecodable input. */
  const Replacement: char := '\U{FFFD}'

  /** The buffer after one read into a zeroed 1024-byte array: the bytes that
      arrived, cut at the capacity, followed by the untouched zeros. */
  function Fill(chunk: seq<byte>): (buf: seq<byte>)
    ensures |buf| == BufferSize
    ensures forall i :: 0 <= i < |chunk| && i < BufferSize ==> buf[i] == chunk[i]
    ensures forall i :: |chunk| <= i < BufferSize ==> buf[i] == 0
  {
    if |chunk| >= BufferSize then chunk[..BufferSize]
    else chunk + seq(BufferSize - |chunk|, _ => 0 as byte)
  }

  /** One byte of lossy decoding: ASCII stands for itself, anything else
      becomes the replacement marker. */
  function DecodeByte(b: byte): char
  {
    if b < 0x80 then (b as int) as char else Replacement
  }

  /** Decoding of the whole buffer, unread zero bytes included. */
  function Decode(buf: seq<byte>): (text: string)
    ensures |text| == |buf|
    ensures forall i :: 0 <= i < |buf| ==> (text[i] as int < 0x80 <==> buf[i] < 0x80)
    ensures forall i :: 0 <= i < |buf| && buf[i] < 0x80 ==> text[i] as int == buf[i] as int
  {
    seq(|buf|, i requires 0 <= i < |buf| => DecodeByte(buf[i]))
  }

  /** The bytes a client sends for an ASCII request text. */
  function Encode(s: string): (bytes: seq<byte>)
    requires forall i :: 0 <= i < |s| ==> s[i] as int < 0x80
    ensures |bytes| == |s|
    ensures forall i :: 0 <= i < |s| ==> bytes[i] as int == s[i] as int
  {
    seq(|s|, i requires 0 <= i < |s| => s[i] as int as byte)
  }

  /** Decoding reads back exactly the ASCII text a client encoded. */
  lemma DecodeEncode(s: string)
    requires forall i :: 0 <= i < |s| ==> s[i] as int < 0x80
    ensures Decode(Encode(s)) == s
  {
  }

  /** A decoded character is a line feed exactly where the byte is one. */
  lemma DecodeLineFeed(buf: seq<byte>, i: nat)
    requires i < |buf|
    ensures (Decode(buf)[i] == '\n') <==> (buf[i] == LineFeed)
  {
  }

  /** Position of the first '\n' of s, or |s| when there is none. */
  function NewlineIndex(s: string): (k: nat)
    ensures k <= |s|
    ensures forall i :: 0 <= i < k ==> s[i] != '\n'
    ensures k < |s| ==> s[k] == '\n'
  {
    if s == [] || s[0] == '\n' then 0 else 1 + NewlineIndex(s[1..])
  }

  /** A line piece cut before a '\n' loses one '\r' that ends it. */
  function StripCarriageReturn(piece: string): string
  {
    if |piece| > 0 && piece[|piece| - 1] == '\r' then piece[..|piece| - 1] else piece
  }

  /** The lines of s, split at "\n" or "\r\n"; a final line needs no
      terminator and keeps everything up to the end of s. */
  function Lines(s: string): (ls: seq<string>)
    ensures (ls == []) <==> (s == [])
    ensures forall j :: 0 <= j < |ls| ==> '\n' !in ls[j]
    decreases |s|
  {
    if s == [] then []
    else
      var k := NewlineIndex(s);
      if k == |s| then [s]
      else [StripCarriageReturn(s[..k])] + Lines(s[k + 1..])
  }

  /** The lines joined back together, one '\n' between neighbours. */
  function JoinLines(ls: seq<string>): string
    decreases |ls|
  {
    if ls == [] then ""
    else if |ls| == 1 then ls[0]
    else ls[0] + "\n" + JoinLines(ls[1..])
  }

  /** The text without one final '\n', if it ends in one. */
  function DropFinalLineFeed(s: string): string
  {
    if |s| > 0 && s[|s| - 1] == '\n' then s[..|s| - 1] else s
  }

  /** For a text without '\r', the lines are exactly the pieces between the
      '\n's: joined with '\n' they give back the text, less a final '\n'. */
  lemma {:induction false} JoinLinesOfLines(s: string)
    requires '\r' !in s
    ensures JoinLines(Lines(s)) == DropFinalLineFeed(s)
    decreases |s|
  {
    if s != [] {
      var k := NewlineIndex(s);
      if k < |s| {
        var head, rest := s[..k], s[k + 1..];
        assert s == head + "\n" + rest;
        assert StripCarriageReturn(head) == head by {
          if |head| > 0 {
            assert head[|head| - 1] in s;
          }
        }
        assert Lines(s) == [head] + Lines(rest);
        if rest == [] {
          assert DropFinalLineFeed(s) == head;
        } else {
          assert '\r' !in rest by {
            forall c | c in rest ensures c != '\r' {
              assert c in s;
            }
          }
          JoinLinesOfLines(rest);
          assert JoinLines(Lines(s)) == head + "\n" + JoinLines(Lines(rest));
          assert DropFinalLineFeed(s) == head + "\n" + DropFinalLineFeed(rest);
        }
      }
    }
  }

  /** The request line: the first of the lines, or "" when there is none. */
  function FirstLine(text: string): (line: string)
    ensures '\n' !in line
    ensures line <= text
    ensures '\n' !in text ==> line == text
    ensures text == [] ==> line == []
  {
    var ls := Lines(text);
    if ls == [] then "" else ls[0]
  }

  /** Where the text has a '\n', the request line is cut at the first one,
      and the terminator that follows it is either "\n" (after a line that
      does not end in '\r') or "\r\n". */
  lemma FirstLineTerminator(text: string)
    requires '\n' in text
    ensures var line := FirstLine(text);
      |line| < |text| &&
      ((text[|line|] == '\n' && (|line| == 0 || line[|line| - 1] != '\r')) ||
       (|line| + 1 < |text| && text[|line|] == '\r' && text[|line| + 1] == '\n'))
  {
  }

  /** A prefix without line terminators at the start of the text is also
      the start of the request line. */
  lemma PrefixSurvives(p: string, text: string)
    requires p <= text
    requires '\n' !in p && '\r' !in p
    ensures p <= FirstLine(text)
  {
  }
}
