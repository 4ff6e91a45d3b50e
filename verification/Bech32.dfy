/** Bech32 strings: a human-readable part, a separator, and values of five bits with a checksum. */
module Bech32 {
  import opened Wrappers
  import opened Bech32Checksum
  import opened Bech32Errors

  type Text = seq<bv8>

  const SEPARATOR: bv8 := 49

  // ----- characters

  /** The character for a value: the 32 characters of qpzry9x8gf2tvdw0s3jn54khce6mua7l in this order. */
  function ToChar(v: bv32): bv8
    requires v < 32
  {
    if v == 0 then 113 else if v == 1 then 112 else if v == 2 then 122 else if v == 3 then 114
    else if v == 4 then 121 else if v == 5 then 57 else if v == 6 then 120 else if v == 7 then 56
    else if v == 8 then 103 else if v == 9 then 102 else if v == 10 then 50 else if v == 11 then 116
    else if v == 12 then 118 else if v == 13 then 100 else if v == 14 then 119 else if v == 15 then 48
    else if v == 16 then 115 else if v == 17 then 51 else if v == 18 then 106 else if v == 19 then 110
    else if v == 20 then 53 else if v == 21 then 52 else if v == 22 then 107 else if v == 23 then 104
    else if v == 24 then 99 else if v == 25 then 101 else if v == 26 then 54 else if v == 27 then 109
    else if v == 28 then 117 else if v == 29 then 97 else if v == 30 then 55 else 108
  }

  predicate IsLower(c: bv8) {
    97 <= c <= 122
  }

  predicate IsUpper(c: bv8) {
    65 <= c <= 90
  }

  function LowerCase(c: bv8): bv8 {
    if IsUpper(c) then c - 65 + 97 else c
  }

  /** The value of a character of either case. */
  function FromChar(c: bv8): Option<bv32> {
    var l := LowerCase(c);
    if l == 113 then Some(0) else if l == 112 then Some(1) else if l == 122 then Some(2)
    else if l == 114 then Some(3) else if l == 121 then Some(4) else if l == 57 then Some(5)
    else if l == 120 then Some(6) else if l == 56 then Some(7) else if l == 103 then Some(8)
    else if l == 102 then Some(9) else if l == 50 then Some(10) else if l == 116 then Some(11)
    else if l == 118 then Some(12) else if l == 100 then Some(13) else if l == 119 then Some(14)
    else if l == 48 then Some(15) else if l == 115 then Some(16) else if l == 51 then Some(17)
    else if l == 106 then Some(18) else if l == 110 then Some(19) else if l == 53 then Some(20)
    else if l == 52 then Some(21) else if l == 107 then Some(22) else if l == 104 then Some(23)
    else if l == 99 then Some(24) else if l == 101 then Some(25) else if l == 54 then Some(26)
    else if l == 109 then Some(27) else if l == 117 then Some(28) else if l == 97 then Some(29)
    else if l == 55 then Some(30) else if l == 108 then Some(31) else None
  }

  predicate Printable(c: bv8) {
    33 <= c <= 126
  }

  lemma ToCharFrom0(v: bv32)
    requires v < 8
    ensures FromChar(ToChar(v)) == Some(v)
  {
  }

  lemma ToCharFrom8(v: bv32)
    requires 8 <= v < 16
    ensures FromChar(ToChar(v)) == Some(v)
  {
  }

  lemma ToCharFrom16(v: bv32)
    requires 16 <= v < 20
    ensures FromChar(ToChar(v)) == Some(v)
  {
  }

  lemma ToCharFrom20(v: bv32)
    requires 20 <= v < 24
    ensures FromChar(ToChar(v)) == Some(v)
  {
  }

  lemma ToCharFrom24(v: bv32)
    requires 24 <= v < 26
    ensures FromChar(ToChar(v)) == Some(v)
  {
  }

  lemma ToCharFrom26(v: bv32)
    requires 26 <= v < 28
    ensures FromChar(ToChar(v)) == Some(v)
  {
  }

  lemma ToCharFrom28(v: bv32)
    requires 28 <= v < 30
    ensures FromChar(ToChar(v)) == Some(v)
  {
  }

  lemma ToCharFrom30(v: bv32)
    requires 30 <= v < 32
    ensures FromChar(ToChar(v)) == Some(v)
  {
  }

  lemma ToCharKind(v: bv32)
    requires v < 32
    ensures Printable(ToChar(v)) && !IsUpper(ToChar(v)) && ToChar(v) != SEPARATOR
  {
  }

  lemma ToCharFrom(v: bv32)
    requires v < 32
    ensures FromChar(ToChar(v)) == Some(v)
    ensures Printable(ToChar(v)) && !IsUpper(ToChar(v)) && ToChar(v) != SEPARATOR
  {
    hide FromChar, ToChar;
    ToCharKind(v);
    if v < 8 { ToCharFrom0(v); }
    else if v < 16 { ToCharFrom8(v); }
    else if v < 20 { ToCharFrom16(v); }
    else if v < 24 { ToCharFrom20(v); }
    else if v < 26 { ToCharFrom24(v); }
    else if v < 28 { ToCharFrom26(v); }
    else if v < 30 { ToCharFrom28(v); }
    else { ToCharFrom30(v); }
  }

  lemma FromCharTo(c: bv8)
    ensures FromChar(c).Some? ==> FromChar(c).value < 32 && ToChar(FromChar(c).value) == LowerCase(c) && c != SEPARATOR
  {
  }

  // ----- the codec

  function HighBits(c: bv8): bv32 {
    c as bv32 >> 5
  }

  function LowBits(c: bv8): bv32 {
    c as bv32 & 31
  }

  /** The high bits of all characters, a zero, and the low bits. */
  function ExpandHRP(hrp: Text): (r: Values)
    ensures |r| == 2 * |hrp| + 1
  {
    seq(|hrp|, i requires 0 <= i < |hrp| => HighBits(hrp[i])) + [0] + seq(|hrp|, i requires 0 <= i < |hrp| => LowBits(hrp[i]))
  }

  lemma CharBits(c: bv8)
    ensures HighBits(c) < 32 && LowBits(c) < 32
  {
  }

  lemma ExpandedSmall(hrp: Text)
    ensures FiveBits(ExpandHRP(hrp))
  {
    forall i | 0 <= i < |ExpandHRP(hrp)| ensures ExpandHRP(hrp)[i] < 32 {
      if i < |hrp| { CharBits(hrp[i]); }
      else if i > |hrp| { CharBits(hrp[i - |hrp| - 1]); }
    }
  }

  predicate VerifyChecksum(hrp: Text, values: Values) {
    Poly(1, ExpandHRP(hrp) + values) == 1
  }

  function CreateChecksum(hrp: Text, values: Values): (r: Values)
    ensures |r| == 6
  {
    Groups(Xor(Poly(1, ExpandHRP(hrp) + values + Zeros(6)), 1))
  }

  function Chars(vs: Values): (s: Text)
    requires FiveBits(vs)
    ensures |s| == |vs| && forall i :: 0 <= i < |vs| ==> s[i] == ToChar(vs[i])
  {
    seq(|vs|, i requires 0 <= i < |vs| => ToChar(vs[i]))
  }

  predicate AllValues(s: Text) {
    forall i :: 0 <= i < |s| ==> FromChar(s[i]).Some?
  }

  function ValuesOf(s: Text): (vs: Values)
    requires AllValues(s)
    ensures |vs| == |s| && forall i :: 0 <= i < |s| ==> vs[i] == FromChar(s[i]).value
  {
    seq(|s|, i requires 0 <= i < |s| => FromChar(s[i]).value)
  }

  function LowerAll(s: Text): (r: Text)
    ensures |r| == |s| && forall i :: 0 <= i < |s| ==> r[i] == LowerCase(s[i])
  {
    seq(|s|, i requires 0 <= i < |s| => LowerCase(s[i]))
  }

  function Encode(hrp: Text, data: Values): Text
    requires FiveBits(data)
  {
    ChecksumSmall(hrp, data);
    hrp + [SEPARATOR] + Chars(data + CreateChecksum(hrp, data))
  }

  lemma ChecksumSmall(hrp: Text, data: Values)
    ensures FiveBits(CreateChecksum(hrp, data))
  {
    hide Groups, Poly;
    GroupsAreSmall(Xor(Poly(1, ExpandHRP(hrp) + data + Zeros(6)), 1));
  }

  /** The position of the last separator, or -1. */
  function LastSeparator(s: Text): (p: int)
    ensures -1 <= p < |s| && (p >= 0 ==> s[p] == SEPARATOR) && forall i :: p < i < |s| ==> s[i] != SEPARATOR
  {
    if s == [] then -1 else if s[|s| - 1] == SEPARATOR then |s| - 1 else LastSeparator(s[..|s| - 1])
  }

  predicate CaseOk(s: Text) {
    && (forall i :: 0 <= i < |s| ==> Printable(s[i]))
    && !((exists i :: 0 <= i < |s| && IsLower(s[i])) && (exists i :: 0 <= i < |s| && IsUpper(s[i])))
  }

  function Decode(s: Text): Option<(Text, Values)> {
    var p := LastSeparator(s);
    if !CaseOk(s) || |s| > 90 || p < 1 || p + 7 > |s| || !AllValues(s[p + 1..]) then None
    else
      var hrp, values := LowerAll(s[..p]), ValuesOf(s[p + 1..]);
      if VerifyChecksum(hrp, values) then Some((hrp, values[..|values| - 6])) else None
  }

  // ----- round trips and error detection

  /** Only the right checksum is accepted. */
  lemma VerifyIff(hrp: Text, data: Values, tail: Values)
    requires FiveBits(data) && FiveBits(tail) && |tail| == 6
    ensures VerifyChecksum(hrp, data + tail) <==> tail == CreateChecksum(hrp, data)
  {
    hide Poly, Xor, Groups, Zeros, ExpandHRP;
    ExpandedSmall(hrp);
    var all := ExpandHRP(hrp) + data;
    ChecksumIsUnique(1, all, 1, tail);
    assert ExpandHRP(hrp) + (data + tail) == all + tail;
  }

  /** A change within six consecutive values of a valid list is always noticed. */
  lemma BurstDetected(hrp: Text, front: Values, us: Values, vs: Values, back: Values)
    requires FiveBits(front) && FiveBits(us) && FiveBits(vs) && FiveBits(back) && |us| == |vs| <= 6 && us != vs
    requires VerifyChecksum(hrp, front + us + back)
    ensures !VerifyChecksum(hrp, front + vs + back)
  {
    hide Poly, ExpandHRP;
    ExpandedSmall(hrp);
    var start := ExpandHRP(hrp) + front;
    BurstChangesRemainder(1, start, us, vs, back);
    assert ExpandHRP(hrp) + (front + us + back) == start + us + back;
    assert ExpandHRP(hrp) + (front + vs + back) == start + vs + back;
  }

  /** A change of one or two values, however far apart within the 90 characters of a string, is always noticed. */
  lemma TwoErrorsDetected(hrp: Text, front: Values, a: bv32, a': bv32, mid: Values, b: bv32, b': bv32, back: Values)
    requires FiveBits(front) && FiveBits(mid) && FiveBits(back) && |mid| < 89
    requires a < 32 && a' < 32 && b < 32 && b' < 32 && (a != a' || b != b')
    requires VerifyChecksum(hrp, front + [a] + mid + [b] + back)
    ensures !VerifyChecksum(hrp, front + [a'] + mid + [b'] + back)
  {
    hide Poly, ExpandHRP;
    ExpandedSmall(hrp);
    var start := ExpandHRP(hrp) + front;
    TwoErrorsChangeRemainder(1, start, a, a', mid, b, b', back);
    assert ExpandHRP(hrp) + (front + [a] + mid + [b] + back) == start + [a] + mid + [b] + back;
    assert ExpandHRP(hrp) + (front + [a'] + mid + [b'] + back) == start + [a'] + mid + [b'] + back;
  }

  /** A string that was encoded decodes to what it was made from, exactly if it is not too long and names a
      human-readable part. */
  lemma DecodeEncode(hrp: Text, data: Values)
    requires FiveBits(data) && forall i :: 0 <= i < |hrp| ==> Printable(hrp[i]) && !IsUpper(hrp[i])
    ensures Decode(Encode(hrp, data)) == if hrp != [] && |hrp| + |data| + 7 <= 90 then Some((hrp, data)) else None
  {
    hide ToChar, FromChar, CreateChecksum, VerifyChecksum, IsLower, IsUpper, LastSeparator, Printable;
    var check := CreateChecksum(hrp, data);
    var s := Encode(hrp, data);
    ChecksumSmall(hrp, data);
    EncodedText(hrp, data + check);
    VerifyIff(hrp, data, check);
    assert (data + check)[..|data|] == data;
  }

  lemma EncodedText(hrp: Text, values: Values)
    requires FiveBits(values) && forall i :: 0 <= i < |hrp| ==> Printable(hrp[i]) && !IsUpper(hrp[i])
    ensures var s := hrp + [SEPARATOR] + Chars(values);
            && CaseOk(s) && LastSeparator(s) == |hrp| && AllValues(s[|hrp| + 1..]) && ValuesOf(s[|hrp| + 1..]) == values
            && LowerAll(s[..|hrp|]) == hrp
  {
    hide ToChar, FromChar, IsUpper, IsLower, Printable, LastSeparator;
    var s := hrp + [SEPARATOR] + Chars(values);
    forall i | 0 <= i < |values|
      ensures FromChar(Chars(values)[i]) == Some(values[i]) && Printable(Chars(values)[i])
      ensures !IsUpper(Chars(values)[i]) && Chars(values)[i] != SEPARATOR {
      ToCharFrom(values[i]);
    }
    SeparatorKind();
    assert s[|hrp| + 1..] == Chars(values) && s[..|hrp|] == hrp;
    assert forall i :: 0 <= i < |s| ==> Printable(s[i]) && !IsUpper(s[i]);
    assert s[|hrp|] == SEPARATOR && forall i :: |hrp| < i < |s| ==> s[i] != SEPARATOR;
    SeparatorAt(s, |hrp|);
  }

  lemma SeparatorKind()
    ensures Printable(SEPARATOR) && !IsUpper(SEPARATOR)
  {
  }

  lemma {:induction false} SeparatorAt(s: Text, p: nat)
    requires p < |s| && s[p] == SEPARATOR && forall i :: p < i < |s| ==> s[i] != SEPARATOR
    ensures LastSeparator(s) == p
    decreases |s|
  {
    if p < |s| - 1 { SeparatorAt(s[..|s| - 1], p); }
  }

  /** Encoding gives back what was decoded, in lower case: every accepted string is the encoding of its contents. */
  lemma EncodeDecode(s: Text)
    requires Decode(s).Some?
    ensures FiveBits(Decode(s).value.1) && Encode(Decode(s).value.0, Decode(s).value.1) == LowerAll(s)
  {
    hide ToChar, FromChar, CreateChecksum, VerifyChecksum, CaseOk, AllValues, LastSeparator, LowerCase;
    var p := LastSeparator(s);
    var hrp, values := LowerAll(s[..p]), ValuesOf(s[p + 1..]);
    var data, tail := values[..|values| - 6], values[|values| - 6..];
    ReadBack(s[p + 1..]);
    assert values == data + tail;
    VerifyIff(hrp, data, tail);
    LowerParts(s, p);
    assert Encode(hrp, data) == hrp + [SEPARATOR] + Chars(values);
  }

  /** Characters that stand for values are the characters of those values, up to case. */
  lemma ReadBack(s: Text)
    requires AllValues(s)
    ensures FiveBits(ValuesOf(s)) && Chars(ValuesOf(s)) == LowerAll(s)
  {
    hide ToChar, FromChar, LowerCase;
    forall i | 0 <= i < |s| ensures ValuesOf(s)[i] < 32 && ToChar(ValuesOf(s)[i]) == LowerCase(s[i]) {
      FromCharTo(s[i]);
    }
  }

  lemma LowerParts(s: Text, p: nat)
    requires p < |s| && s[p] == SEPARATOR
    ensures LowerAll(s) == LowerAll(s[..p]) + [SEPARATOR] + LowerAll(s[p + 1..])
  {
    hide LowerCase;
    SeparatorLower();
  }

  lemma SeparatorLower()
    ensures LowerCase(SEPARATOR) == SEPARATOR
  {
  }

  // ----- the loops

  method PolyMod(v: Values) returns (c: bv32)
    ensures c == Poly(1, v)
  {
    hide Step;
    c := 1;
    var i := 0;
    while i < |v|
      invariant 0 <= i <= |v| && c == Poly(1, v[..i])
    {
      PolyNext(1, v, i);
      c := Step(c, v[i]);
      i := i + 1;
    }
    assert v[..i] == v;
  }

  method EncodeText(hrp: Text, values: Values) returns (ret: Text)
    requires FiveBits(values)
    ensures ret == Encode(hrp, values)
  {
    hide Poly, ToChar, Groups, Xor, FiveBits;
    var mod := PolyMod(ExpandHRP(hrp) + values + Zeros(6));
    var combined := values + Groups(Xor(mod, 1));
    CombinedSmall(hrp, values);
    ret := hrp + [SEPARATOR];
    var i := 0;
    while i < |combined|
      invariant 0 <= i <= |combined| && ret == hrp + [SEPARATOR] + Chars(combined)[..i]
    {
      ValueSmall(combined, i);
      ret := ret + [ToChar(combined[i])];
      i := i + 1;
    }
    assert Chars(combined)[..i] == Chars(combined);
  }

  lemma CombinedSmall(hrp: Text, values: Values)
    requires FiveBits(values)
    ensures FiveBits(values + CreateChecksum(hrp, values))
  {
    ChecksumSmall(hrp, values);
  }

  lemma ValueSmall(vs: Values, i: nat)
    requires FiveBits(vs) && i < |vs|
    ensures vs[i] < 32
  {
  }

  method CheckCase(s: Text) returns (ok: bool)
    ensures ok <==> CaseOk(s)
  {
    var lower, upper := false, false;
    var i := 0;
    while i < |s|
      invariant 0 <= i <= |s| && forall j :: 0 <= j < i ==> Printable(s[j])
      invariant lower <==> exists j :: 0 <= j < i && IsLower(s[j])
      invariant upper <==> exists j :: 0 <= j < i && IsUpper(s[j])
    {
      var c := s[i];
      if IsLower(c) { lower := true; }
      else if IsUpper(c) { upper := true; }
      else if !Printable(c) { return false; }
      i := i + 1;
    }
    return !(lower && upper);
  }

  method ReadValues(s: Text) returns (r: Option<Values>)
    ensures r == if AllValues(s) then Some(ValuesOf(s)) else None
  {
    hide FromChar;
    var values: Values := [];
    var i := 0;
    while i < |s|
      invariant 0 <= i <= |s| && AllValues(s[..i]) && values == ValuesOf(s[..i])
    {
      var rev := FromChar(s[i]);
      if rev.None? { return None; }
      values := values + [rev.value];
      i := i + 1;
    }
    assert s[..i] == s;
    return Some(values);
  }

  method DecodeText(s: Text) returns (r: Option<(Text, Values)>)
    ensures r == Decode(s)
  {
    hide CaseOk, AllValues, ExpandHRP, Poly, FromChar, LowerCase, LastSeparator;
    var ok := CheckCase(s);
    if !ok { return None; }
    var p := LastSeparator(s);
    if |s| > 90 || p == -1 || p == 0 || p + 7 > |s| { return None; }
    var read := ReadValues(s[p + 1..]);
    if read.None? { return None; }
    var hrp := LowerAll(s[..p]);
    var mod := PolyMod(ExpandHRP(hrp) + read.value);
    if mod != 1 { return None; }
    return Some((hrp, read.value[..|read.value| - 6]));
  }
}
