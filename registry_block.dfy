/**
 * StarRegistryBlock.js: a new, not yet linked block of the registry chain.
 * The story is hex-encoded, and the inner Star is built with the positional
 * arguments `(star.ra, star.dec, hex(story))` against the parameter list
 * `(dec, ra, mag, cen, story)` of Star.js.
 */
module RegistryBlock {
  import opened Wrappers
  import opened Encoding
  import opened StarValue

  /** The `star` object handed to the constructor; only these three properties are read. */
  datatype StarPayload = StarPayload(ra: string, dec: string, story: string)

  datatype Body = Body(address: string, star: Star)

  /** A block; `time` is whole seconds, `height` and `previousBlockHash` are set when it is appended. */
  datatype Block = Block(body: Body, hash: string, height: nat, time: nat, previousBlockHash: string)

  /** `Buffer(story).toString('hex')`. */
  function HexStory(story: string): (h: string)
    ensures |h| == 2 * |Utf8Encode(story)|
    ensures forall i :: 0 <= i < |h| ==> IsLowerHexDigit(h[i])
  {
    HexOf(Utf8Encode(story))
  }

  /** `new StarRegistryBlock(walletAddress, star)` at clock `nowMs`. */
  function NewBlock(walletAddress: string, star: StarPayload, nowMs: nat): (b: Block)
    ensures b.hash == "" && b.height == 0 && b.previousBlockHash == ""
    ensures b.body.address == walletAddress
    ensures b.time == nowMs / 1000
    // the positional call: ra lands in dec, dec in ra, the hex story in mag
    ensures b.body.star.dec == star.ra && b.body.star.ra == star.dec
    ensures b.body.star.mag == HexStory(star.story)
    ensures b.body.star.cen == "" && b.body.star.story == ""
  {
    var encodedStar := NewStar([Some(star.ra), Some(star.dec), Some(HexStory(star.story))]);
    Block(Body(walletAddress, encodedStar), "", 0, Seconds(nowMs), "")
  }

  /**
   * The story of an ASCII payload is recoverable by hex2ascii from the
   * field it lands in (`mag`), while the `story` field the controller decodes
   * holds nothing.
   */
  lemma StoryLandsInMag(walletAddress: string, star: StarPayload, nowMs: nat)
    requires IsAscii(star.story)
    ensures Hex2Ascii(NewBlock(walletAddress, star, nowMs).body.star.mag) == star.story
    ensures Hex2Ascii(NewBlock(walletAddress, star, nowMs).body.star.story) == ""
  {
    AsciiHexRoundTrip(star.story);
  }
}
