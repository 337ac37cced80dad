/**
 * The byte encoding of the one text payload the screen sends. For characters
 * below 0x80 the UTF-8 encoding is one byte per character, equal to the
 * character's code point; only that range is modelled.
 */
module Codec {
  import opened Ble

  predicate IsAscii(s: string) {
    forall i :: 0 <= i < |s| ==> s[i] as int < 0x80
  }

  /** UTF-8 encoding of an ASCII string. */
  function AsciiBytes(s: string): (r: seq<byte>)
    requires IsAscii(s)
    ensures |r| == |s|
    ensures forall i :: 0 <= i < |s| ==> r[i] as int == s[i] as int
  {
    if s == [] then [] else [s[0] as int as byte] + AsciiBytes(s[1..])
  }

  /** The text sent by a ping. */
  const PingText: string := "Ping"

  /** The bytes a ping writes. */
  function PingPayload(): (r: seq<byte>)
    ensures r == [0x50, 0x69, 0x6e, 0x67]
  {
    assert IsAscii(PingText);
    AsciiBytes(PingText)
  }
}
