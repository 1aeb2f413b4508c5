/** Advertising data of an ADV_NONCONN_IND: a sequence of AD structures
    (Bluetooth Core v5.4, Vol 3, Part C, section 11), each one length byte
    covering a type byte and the value bytes that follow. This module holds
    the structure-by-structure reading of such a payload that the byte-level
    decoder is proved against, and the UTF-8 check applied to local names. */
module Advertising {
  import opened Prelude
  import opened Protocol

  // ---------------------------------------------------------------------
  // UTF-8 (RFC 3629, section 4)

  predicate Utf8Tail(b: byte)
  {
    0x80 <= b <= 0xBF
  }

  /** The length of the well-formed UTF-8 character at the start of `s`, or
      0 if `s` does not start with one. Overlong forms, surrogates and code
      points above U+10FFFF are not well formed. */
  function Utf8CharLength(s: seq<byte>): (n: nat)
    requires |s| > 0
    ensures n <= |s|
  {
    var b0 := s[0];
    if b0 <= 0x7F then 1
    else if 0xC2 <= b0 <= 0xDF then
      if |s| >= 2 && Utf8Tail(s[1]) then 2 else 0
    else if b0 == 0xE0 then
      if |s| >= 3 && 0xA0 <= s[1] <= 0xBF && Utf8Tail(s[2]) then 3 else 0
    else if (0xE1 <= b0 <= 0xEC) || (0xEE <= b0 <= 0xEF) then
      if |s| >= 3 && Utf8Tail(s[1]) && Utf8Tail(s[2]) then 3 else 0
    else if b0 == 0xED then
      if |s| >= 3 && 0x80 <= s[1] <= 0x9F && Utf8Tail(s[2]) then 3 else 0
    else if b0 == 0xF0 then
      if |s| >= 4 && 0x90 <= s[1] <= 0xBF && Utf8Tail(s[2]) && Utf8Tail(s[3]) then 4 else 0
    else if 0xF1 <= b0 <= 0xF3 then
      if |s| >= 4 && Utf8Tail(s[1]) && Utf8Tail(s[2]) && Utf8Tail(s[3]) then 4 else 0
    else if b0 == 0xF4 then
      if |s| >= 4 && 0x80 <= s[1] <= 0x8F && Utf8Tail(s[2]) && Utf8Tail(s[3]) then 4 else 0
    else 0
  }

  /** `s` is a sequence of well-formed UTF-8 characters. */
  predicate ValidUtf8(s: seq<byte>)
    decreases |s|
  {
    |s| == 0 || (Utf8CharLength(s) > 0 && ValidUtf8(s[Utf8CharLength(s)..]))
  }

  /** Plain ASCII is valid UTF-8. */
  lemma {:induction false} AsciiIsUtf8(s: seq<byte>)
    requires forall i :: 0 <= i < |s| ==> s[i] < 0x80
    ensures ValidUtf8(s)
    decreases |s|
  {
    if |s| > 0 {
      AsciiIsUtf8(s[1..]);
    }
  }

  /** A lead byte with no continuation is not valid UTF-8. */
  lemma TruncatedCharRejected(b: byte)
    requires b >= 0xC2
    ensures !ValidUtf8([b])
  {
  }

  // ---------------------------------------------------------------------
  // AD structures

  /** Manufacturer Specific Data (Supplement Part A, section 1.4): the first
      two value bytes are the company identifier, least significant first;
      the rest is opaque. Missing bytes read as zero. */
  function ManufacturerOf(vals: seq<byte>): ManufacturerSpecificData
  {
    ManufacturerSpecificData(LittleEndian16(At(vals, 0), At(vals, 1)), if |vals| >= 2 then vals[2..] else [])
  }

  /** The effect of the value bytes `vals` of one AD structure of type `t`
      on the record; `complete` says whether the structure's last value byte
      has arrived. Flags and TX power level take the last value byte seen; the
      local name and the manufacturer data are recorded only once complete,
      and the name only if it is valid UTF-8. Other types record nothing. */
  function ApplyValue(m: NonConnInd, t: byte, vals: seq<byte>, complete: bool): NonConnInd
  {
    if t == AD_FLAGS then
      if |vals| > 0 then m.(flags := Some(FlagsOf(vals[|vals| - 1]))) else m
    else if t == AD_COMPLETE_LOCAL_NAME then
      if complete && ValidUtf8(vals) then m.(completeLocalName := Some(CompleteLocalName(vals))) else m
    else if t == AD_TX_POWER_LEVEL then
      if |vals| > 0 then m.(txPowerLevel := Some(TxPowerLevel(vals[|vals| - 1]))) else m
    else if t == AD_MANUFACTURER_SPECIFIC then
      if complete then m.(manufacturerData := Some(ManufacturerOf(vals))) else m
    else m
  }

  /** `m` with one more type byte recorded. */
  function WithType(m: NonConnInd, t: byte): NonConnInd
  {
    m.(advertisingTypes := m.advertisingTypes + [t])
  }

  /** The advertising data `s`, structure by structure, recorded into `m`.
      A structure whose length byte is `n >= 2` is complete once its `n - 1`
      value bytes are present, and the next structure starts after it. A
      structure whose length byte is 0 or 1 never completes: every remaining
      byte is a value byte of it. A structure cut short by the end of `s`
      records what it has. Every type byte is appended to
      `advertisingTypes`. */
  function ParseAds(m: NonConnInd, s: seq<byte>): (r: NonConnInd)
    ensures r.advertisingMac == m.advertisingMac
    decreases |s|
  {
    if |s| <= 1 then m
    else
      var m1 := WithType(m, s[1]);
      if 2 <= s[0] < |s| then ParseAds(ApplyValue(m1, s[1], s[2..s[0] + 1], true), s[s[0] + 1..])
      else ApplyValue(m1, s[1], s[2..], false)
  }

  /** Where the reading of `s` stands at its end: before a length byte,
      before a type byte, or inside the value bytes of a structure. */
  datatype AdCursor = AtLength | AtType(len: byte) | InValue(len: byte, adType: byte, vals: seq<byte>)

  function Pending(s: seq<byte>): (c: AdCursor)
    ensures c.InValue? ==> |c.vals| + 2 <= |s|
    decreases |s|
  {
    if |s| == 0 then AtLength
    else if |s| == 1 then AtType(s[0])
    else if 2 <= s[0] < |s| then Pending(s[s[0] + 1..])
    else InValue(s[0], s[1], s[2..])
  }

  /** Adding the value bytes one at a time gives the same record as adding
      them all at once. */
  lemma ApplyValueSnoc(m: NonConnInd, t: byte, vals: seq<byte>, b: byte, complete: bool)
    ensures ApplyValue(m, t, vals + [b], complete) == ApplyValue(ApplyValue(m, t, vals, false), t, vals + [b], complete)
  {
  }

  /** One byte of advertising data read by the per-byte state machine the
      decoder runs: a length byte, then a type byte, then value bytes until
      the declared length is used up. */
  function AdStep(r: NonConnInd, c: AdCursor, b: byte): (NonConnInd, AdCursor)
  {
    match c
    case AtLength => (r, AtType(b))
    case AtType(len) => (WithType(r, b), InValue(len, b, []))
    case InValue(len, t, vals) =>
      var done := |vals| + 2 == len;
      (ApplyValue(r, t, vals + [b], done), if done then AtLength else InValue(len, t, vals + [b]))
  }

  /** The state machine agrees with the structure-by-structure reading: one
      more byte moves the record and the cursor exactly as `AdStep` says. */
  lemma {:induction false} AdSnoc(m: NonConnInd, w: seq<byte>, b: byte)
    ensures (ParseAds(m, w + [b]), Pending(w + [b])) == AdStep(ParseAds(m, w), Pending(w), b)
    decreases |w|
  {
    var w' := w + [b];
    if |w| == 0 {
    } else if |w| == 1 {
      assert w'[2..] == [];
    } else if 2 <= w[0] < |w| {
      var n := w[0];
      assert w'[n + 1..] == w[n + 1..] + [b];
      assert w'[2..n + 1] == w[2..n + 1];
      var m1 := ApplyValue(WithType(m, w[1]), w[1], w[2..n + 1], true);
      assert ParseAds(m, w) == ParseAds(m1, w[n + 1..]);
      assert ParseAds(m, w') == ParseAds(m1, w[n + 1..] + [b]);
      AdSnoc(m1, w[n + 1..], b);
    } else {
      AdSnocOpen(m, w, b);
    }
  }

  /** The case where `w` ends inside its first structure. */
  lemma AdSnocOpen(m: NonConnInd, w: seq<byte>, b: byte)
    requires |w| >= 2 && !(2 <= w[0] < |w|)
    ensures (ParseAds(m, w + [b]), Pending(w + [b])) == AdStep(ParseAds(m, w), Pending(w), b)
  {
    var w' := w + [b];
    var m1 := WithType(m, w[1]);
    var done := |w| == w[0];
    assert w'[2..] == w[2..] + [b];
    assert Pending(w) == InValue(w[0], w[1], w[2..]);
    assert ParseAds(m, w) == ApplyValue(m1, w[1], w[2..], false);
    ApplyValueSnoc(m1, w[1], w[2..], b, done);
    if done {
      assert 2 <= w'[0] < |w'|;
      assert w'[2..w'[0] + 1] == w[2..] + [b];
      assert w'[w'[0] + 1..] == [];
      assert ParseAds(m, w') == ApplyValue(m1, w[1], w[2..] + [b], true);
    } else {
      assert !(2 <= w'[0] < |w'|);
      assert ParseAds(m, w') == ApplyValue(m1, w[1], w[2..] + [b], false);
    }
  }
}
