/** How the advertising data of an ADV_NONCONN_IND is read: type bytes are
    recorded in arrival order, a complete structure is read on its own and
    the next one starts after it, flags and TX power take the last value
    byte seen, the local name and the manufacturer data are recorded only
    once their structure is complete, and a structure whose length byte is 0
    or 1 swallows the rest of the data. */
module AdProperties {
  import opened Prelude
  import opened Protocol
  import opened Advertising

  /** One more byte appends a type exactly when it arrives where a type
      byte is expected; nothing else touches the list. */
  lemma TypesSnoc(m: NonConnInd, w: seq<byte>, b: byte)
    ensures ParseAds(m, w + [b]).advertisingTypes
         == ParseAds(m, w).advertisingTypes + (if Pending(w).AtType? then [b] else [])
  {
    AdSnoc(m, w, b);
    ApplyValueTypes(ParseAds(m, w), w, b);
  }

  /** Recording a value never changes the list of types. */
  lemma ApplyValueTypes(r: NonConnInd, w: seq<byte>, b: byte)
    ensures Pending(w).InValue? ==>
      var c := Pending(w);
      ApplyValue(r, c.adType, c.vals + [b], |c.vals| + 2 == c.len).advertisingTypes == r.advertisingTypes
  {
  }

  /** Types already recorded stay where they are: reading more data only
      appends to the list. */
  lemma {:induction false} TypesOnlyGrow(m: NonConnInd, w: seq<byte>, u: seq<byte>)
    ensures var before := ParseAds(m, w).advertisingTypes;
      var after := ParseAds(m, w + u).advertisingTypes;
      |before| <= |after| && after[..|before|] == before
    decreases |u|
  {
    if |u| == 0 {
      assert w + u == w;
    } else {
      var u' := u[..|u| - 1];
      TypesOnlyGrow(m, w, u');
      assert w + u == (w + u') + [u[|u| - 1]];
      TypesSnoc(m, w + u', u[|u| - 1]);
    }
  }

  /** A complete structure (length byte `n >= 2` followed by exactly
      `n` bytes) is read on its own, and what follows is read from the record
      it leaves. */
  lemma CompleteStructure(m: NonConnInd, a: seq<byte>, rest: seq<byte>)
    requires |a| >= 3 && a[0] as int == |a| - 1
    ensures ParseAds(m, a + rest) == ParseAds(ParseAds(m, a), rest)
    ensures ParseAds(m, a) ==
      ApplyValue(WithType(m, a[1]), a[1], a[2..], true)
  {
    var s := a + rest;
    var n := a[0];
    var m1 := WithType(m, a[1]);
    var r := ApplyValue(m1, a[1], a[2..], true);
    assert s[0] == n && s[1] == a[1] && 2 <= n < |s|;
    assert s[2..n + 1] == a[2..];
    assert s[n + 1..] == rest;
    assert ParseAds(m, s) == ParseAds(r, rest);
    assert a[2..n + 1] == a[2..];
    assert a[n + 1..] == [];
    assert ParseAds(m, a) == ParseAds(r, []);
  }

  /** A structure that is all there is: its length byte `n` either never
      completes (`n` is 0 or 1) or covers at least the value bytes present.
      It is complete exactly when its last value byte has arrived. */
  predicate SingleStructure(n: byte, v: seq<byte>)
  {
    n < 2 || |v| + 1 <= n
  }

  /** A single structure records its type and then its value bytes, as a
      complete value only when `n >= 2` and all `n - 1` value bytes are
      present. */
  lemma ReadSingle(m: NonConnInd, n: byte, t: byte, v: seq<byte>)
    requires SingleStructure(n, v)
    ensures ParseAds(m, [n, t] + v)
         == ApplyValue(WithType(m, t), t, v, 2 <= n && n as int == |v| + 1)
  {
    if 2 <= n && n as int == |v| + 1 {
      ReadComplete(m, n, t, v);
    } else {
      ReadIncomplete(m, n, t, v);
    }
  }

  lemma ReadComplete(m: NonConnInd, n: byte, t: byte, v: seq<byte>)
    requires 2 <= n && n as int == |v| + 1
    ensures ParseAds(m, [n, t] + v) == ApplyValue(WithType(m, t), t, v, true)
  {
    var s := [n, t] + v;
    assert s[0] == n && s[1] == t;
    assert s[2..n + 1] == v;
    assert s[n + 1..] == [];
  }

  lemma ReadIncomplete(m: NonConnInd, n: byte, t: byte, v: seq<byte>)
    requires n < 2 || |v| + 2 <= n
    ensures ParseAds(m, [n, t] + v) == ApplyValue(WithType(m, t), t, v, false)
  {
    var s := [n, t] + v;
    assert s[0] == n && s[1] == t;
    assert s[2..] == v;
  }

  /** Flags: the last value byte wins, whatever the structure's length. */
  lemma FlagsLastByte(m: NonConnInd, n: byte, v: seq<byte>)
    requires SingleStructure(n, v) && |v| > 0
    ensures ParseAds(m, [n, AD_FLAGS] + v).flags == Some(FlagsOf(v[|v| - 1]))
  {
    ReadSingle(m, n, AD_FLAGS, v);
  }

  /** TX power level: the last value byte wins. */
  lemma TxPowerLastByte(m: NonConnInd, n: byte, v: seq<byte>)
    requires SingleStructure(n, v) && |v| > 0
    ensures ParseAds(m, [n, AD_TX_POWER_LEVEL] + v).txPowerLevel == Some(TxPowerLevel(v[|v| - 1]))
  {
    ReadSingle(m, n, AD_TX_POWER_LEVEL, v);
  }

  /** The local name is recorded only when its structure is complete and
      its bytes are valid UTF-8; otherwise the record keeps what it had. */
  lemma NameOnlyWhenComplete(m: NonConnInd, n: byte, v: seq<byte>)
    requires SingleStructure(n, v)
    ensures ParseAds(m, [n, AD_COMPLETE_LOCAL_NAME] + v).completeLocalName
         == if 2 <= n && n as int == |v| + 1 && ValidUtf8(v) then Some(CompleteLocalName(v)) else m.completeLocalName
  {
    ReadSingle(m, n, AD_COMPLETE_LOCAL_NAME, v);
  }

  /** The manufacturer data is recorded only when its structure is
      complete: the company identifier from the first two value bytes, least
      significant first, a missing second byte reading as zero, and the
      remaining bytes as data. */
  lemma ManufacturerOnlyWhenComplete(m: NonConnInd, n: byte, v: seq<byte>)
    requires SingleStructure(n, v)
    ensures ParseAds(m, [n, AD_MANUFACTURER_SPECIFIC] + v).manufacturerData
         == if 2 <= n && n as int == |v| + 1
            then Some(ManufacturerSpecificData(At(v, 0) as int + 0x100 * At(v, 1) as int, if |v| >= 2 then v[2..] else []))
            else m.manufacturerData
  {
    ReadSingle(m, n, AD_MANUFACTURER_SPECIFIC, v);
  }

  /** A manufacturer structure with a single value byte: that byte is the
      whole company identifier and the data is empty. */
  lemma ManufacturerOneByte(m: NonConnInd, x: byte)
    ensures ParseAds(m, [2, AD_MANUFACTURER_SPECIFIC, x]).manufacturerData
         == Some(ManufacturerSpecificData(x, []))
  {
    assert [2, AD_MANUFACTURER_SPECIFIC, x] == [2, AD_MANUFACTURER_SPECIFIC] + [x];
    ManufacturerOnlyWhenComplete(m, 2, [x]);
    AtIndex([x], 0);
    AtIndex([x], 1);
  }

  /** A structure whose length byte covers exactly the bytes after it. */
  predicate CompleteAd(a: seq<byte>)
  {
    |a| >= 3 && a[0] as int == |a| - 1
  }

  /** Structures laid end to end. */
  function Join(ss: seq<seq<byte>>): seq<byte>
  {
    if |ss| == 0 then [] else ss[0] + Join(ss[1..])
  }

  /** After any run of complete structures, what follows is read from the
      record they leave. */
  lemma {:induction false} JoinComplete(m: NonConnInd, ss: seq<seq<byte>>, rest: seq<byte>)
    requires forall i :: 0 <= i < |ss| ==> CompleteAd(ss[i])
    ensures ParseAds(m, Join(ss) + rest) == ParseAds(ParseAds(m, Join(ss)), rest)
    decreases |ss|
  {
    if |ss| == 0 {
      assert Join(ss) + rest == rest;
    } else {
      var m1 := ParseAds(m, ss[0]);
      assert Join(ss) + rest == ss[0] + (Join(ss[1..]) + rest);
      CompleteStructure(m, ss[0], Join(ss[1..]) + rest);
      CompleteStructure(m, ss[0], Join(ss[1..]));
      JoinComplete(m1, ss[1..], rest);
    }
  }

  /** The type bytes of complete structures, in order. */
  function TypesOf(ss: seq<seq<byte>>): (ts: seq<byte>)
    requires forall i :: 0 <= i < |ss| ==> CompleteAd(ss[i])
    ensures |ts| == |ss|
    ensures forall i :: 0 <= i < |ss| ==> |ss[i]| >= 3 && ts[i] == ss[i][1]
  {
    if |ss| == 0 then []
    else
      assert CompleteAd(ss[0]);
      [ss[0][1]] + TypesOf(ss[1..])
  }

  /** Complete structures laid end to end record all their type bytes, in
      order, after the types already recorded. */
  lemma {:induction false} TypesOfJoin(m: NonConnInd, ss: seq<seq<byte>>)
    requires forall i :: 0 <= i < |ss| ==> CompleteAd(ss[i])
    ensures ParseAds(m, Join(ss)).advertisingTypes == m.advertisingTypes + TypesOf(ss)
    decreases |ss|
  {
    if |ss| == 0 {
      assert Join(ss) == [] && TypesOf(ss) == [];
      assert m.advertisingTypes + [] == m.advertisingTypes;
    } else {
      var a, rest := ss[0], ss[1..];
      assert CompleteAd(a);
      assert forall i :: 0 <= i < |rest| ==> CompleteAd(rest[i]) by {
        forall i | 0 <= i < |rest| ensures CompleteAd(rest[i]) {
          assert rest[i] == ss[i + 1];
        }
      }
      var m1, j := ParseAds(m, a), Join(rest);
      assert Join(ss) == a + j;
      StructureThen(m, a, j);
      StructureTypes(m, a);
      TypesOfJoin(m1, rest);
      assert ParseAds(m, Join(ss)).advertisingTypes == m1.advertisingTypes + TypesOf(rest);
      assert TypesOf(ss) == [a[1]] + TypesOf(rest);
      AppendAssoc(m.advertisingTypes, [a[1]], TypesOf(rest));
    }
  }

  lemma AppendAssoc(x: seq<byte>, y: seq<byte>, z: seq<byte>)
    ensures x + (y + z) == (x + y) + z
  {
  }

  /** What follows a complete structure is read from the record it leaves. */
  lemma StructureThen(m: NonConnInd, a: seq<byte>, rest: seq<byte>)
    requires CompleteAd(a)
    ensures ParseAds(m, a + rest) == ParseAds(ParseAds(m, a), rest)
  {
    CompleteStructure(m, a, rest);
  }

  /** A complete structure records just its own type byte. */
  lemma StructureTypes(m: NonConnInd, a: seq<byte>)
    requires CompleteAd(a)
    ensures ParseAds(m, a).advertisingTypes == m.advertisingTypes + [a[1]]
  {
    CompleteStructure(m, a, []);
    assert a + [] == a;
  }

  /** A flags structure overrides every flags value read before it: after
      any run of complete structures (earlier flags structures among them),
      the flags come from the last value byte of the final flags structure,
      and its type is appended to the types read so far. */
  lemma FlagsLastWriteWins(m: NonConnInd, ss: seq<seq<byte>>, n: byte, v: seq<byte>)
    requires forall i :: 0 <= i < |ss| ==> CompleteAd(ss[i])
    requires SingleStructure(n, v) && |v| > 0
    ensures ParseAds(m, Join(ss) + ([n, AD_FLAGS] + v)).flags == Some(FlagsOf(v[|v| - 1]))
    ensures ParseAds(m, Join(ss) + ([n, AD_FLAGS] + v)).advertisingTypes
         == ParseAds(m, Join(ss)).advertisingTypes + [AD_FLAGS]
  {
    var m1 := ParseAds(m, Join(ss));
    JoinComplete(m, ss, [n, AD_FLAGS] + v);
    FlagsLastByte(m1, n, v);
    ReadSingle(m1, n, AD_FLAGS, v);
  }

  /** A structure whose length byte is 0 or 1 never completes: every byte
      after its type is one of its value bytes, even a byte that would start
      another structure. */
  lemma ShortLengthSwallows(n: byte, t: byte, v: seq<byte>)
    requires n < 2
    ensures Pending([n, t] + v) == InValue(n, t, v)
  {
    assert ([n, t] + v)[2..] == v;
  }
}
