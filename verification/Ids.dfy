/** Identifiers printed into strings and parsed back: nested fields joined by control characters. */
module Ids {
  import opened Modular

  const Delimiter1 := '\U{1c}'
  const Delimiter2 := '\U{1d}'
  const Delimiter3 := '\U{1e}'
  const Delimiter4 := '\U{1f}'

  // ----- strings.Join and strings.Split on a one-character separator

  function Join(parts: seq<string>, d: char): string {
    if |parts| == 0 then ""
    else if |parts| == 1 then parts[0]
    else parts[0] + [d] + Join(parts[1..], d)
  }

  function Split(s: string, d: char): (parts: seq<string>)
    ensures |parts| >= 1
    ensures forall i :: 0 <= i < |parts| ==> d !in parts[i]
    ensures Join(parts, d) == s
  {
    if s == "" then [""]
    else
      var rest := Split(s[1..], d);
      if s[0] == d then
        assert ([""] + rest)[1..] == rest;
        [""] + rest
      else
        assert ([[s[0]] + rest[0]] + rest[1..])[1..] == rest[1..];
        [[s[0]] + rest[0]] + rest[1..]
  }

  lemma {:induction false} SplitHead(p: string, s: string, d: char)
    requires d !in p
    ensures Split(p + [d] + s, d) == [p] + Split(s, d)
  {
    var whole := p + [d] + s;
    if p == "" {
      assert whole[1..] == s;
    } else {
      assert whole[1..] == p[1..] + [d] + s;
      SplitHead(p[1..], s, d);
      assert [p[0]] + p[1..] == p;
    }
  }

  lemma {:induction false} SplitWhole(p: string, d: char)
    requires d !in p
    ensures Split(p, d) == [p]
  {
    if p != "" {
      SplitWhole(p[1..], d);
      assert [p[0]] + p[1..] == p;
    }
  }

  /** Splitting undoes joining when no part holds the separator. */
  lemma {:induction false} SplitJoin(parts: seq<string>, d: char)
    requires |parts| >= 1 && forall i :: 0 <= i < |parts| ==> d !in parts[i]
    ensures Split(Join(parts, d), d) == parts
  {
    if |parts| == 1 {
      SplitWhole(parts[0], d);
    } else {
      SplitJoin(parts[1..], d);
      SplitHead(parts[0], Join(parts[1..], d), d);
      assert [parts[0]] + parts[1..] == parts;
    }
  }

  lemma {:induction false} JoinAvoids(parts: seq<string>, d: char, e: char)
    requires d != e && forall i :: 0 <= i < |parts| ==> e !in parts[i]
    ensures e !in Join(parts, d)
  {
    if |parts| > 1 {
      JoinAvoids(parts[1..], d, e);
    }
  }

  lemma JoinPair(a: string, b: string, d: char)
    ensures Join([a, b], d) == a + [d] + b
  {
    assert [a, b][1..] == [b];
  }

  // ----- numbers

  function DigitChar(v: nat): char
    requires v < 16
  {
    if v < 10 then '0' + v as char else 'a' + (v - 10) as char
  }

  function DigitValue(c: char, base: nat): (v: Option<int>)
    ensures v.Some? ==> 0 <= v.value < base
  {
    var n := if '0' <= c <= '9' then c as int - '0' as int
             else if 'a' <= c <= 'f' then c as int - 'a' as int + 10
             else if 'A' <= c <= 'F' then c as int - 'A' as int + 10
             else 16;
    if n < base && n < 16 then Some(n) else None
  }

  lemma DivSmaller(n: nat, base: nat)
    requires 2 <= base <= n
    ensures n / base < n && n == (n / base) * base + n % base
  {
  }

  function Digits(n: nat, base: nat): (s: string)
    requires 2 <= base <= 16
    ensures s != "" && forall i :: 0 <= i < |s| ==> s[i] >= '0'
  {
    if n < base then [DigitChar(n)]
    else
      DivSmaller(n, base);
      Digits(n / base, base) + [DigitChar(n % base)]
  }

  function ParseDigits(s: string, base: nat): Option<int> {
    if s == "" then None
    else
      var last := DigitValue(s[|s| - 1], base);
      if last.None? then None
      else if |s| == 1 then last
      else
        var front := ParseDigits(s[..|s| - 1], base);
        if front.None? then None else Some(front.value * base + last.value)
  }

  lemma DigitRoundTrip(v: nat, base: nat)
    requires v < base <= 16
    ensures DigitValue(DigitChar(v), base) == Some(v)
  {
  }

  lemma {:induction false} ParseOfDigits(n: nat, base: nat)
    requires 2 <= base <= 16
    ensures ParseDigits(Digits(n, base), base) == Some(n)
  {
    if n < base {
      DigitRoundTrip(n, base);
    } else {
      DivSmaller(n, base);
      ParseOfDigits(n / base, base);
      DigitRoundTrip(n % base, base);
      var front := Digits(n / base, base);
      assert (front + [DigitChar(n % base)])[..|front|] == front;
    }
  }

  function Zeros(n: nat): string { seq(n, _ => '0') }

  /** In base 10 a text reads as n exactly if it is n as printed, after any number of zeros. */
  lemma {:induction false} ParseDigitsIff(s: string, n: int)
    ensures ParseDigits(s, 10) == Some(n) <==> n >= 0 && exists z :: s == Zeros(z) + Digits(n, 10)
  {
    if ParseDigits(s, 10) == Some(n) {
      ParsedIsPrinted(s, n);
    }
    if n >= 0 && exists z :: s == Zeros(z) + Digits(n, 10) {
      var z :| s == Zeros(z) + Digits(n, 10);
      LeadingZeros(z, n);
    }
  }

  lemma {:induction false} ParsedIsPrinted(s: string, n: int)
    requires ParseDigits(s, 10) == Some(n)
    ensures n >= 0 && exists z :: s == Zeros(z) + Digits(n, 10)
  {
    var front, v := s[..|s| - 1], DigitValue(s[|s| - 1], 10).value;
    assert s == front + [DigitChar(v)];
    if |s| == 1 {
      assert s == Zeros(0) + Digits(n, 10);
    } else {
      var m := ParseDigits(front, 10).value;
      ParsedIsPrinted(front, m);
      var z :| front == Zeros(z) + Digits(m, 10);
      OneMoreDigit(z, m, v);
    }
  }

  lemma OneMoreDigit(z: nat, m: nat, v: nat)
    requires v < 10
    ensures exists z' :: Zeros(z) + Digits(m, 10) + [DigitChar(v)] == Zeros(z') + Digits(m * 10 + v, 10)
  {
    var n := m * 10 + v;
    if m == 0 {
      assert Zeros(z) + Digits(m, 10) + [DigitChar(v)] == Zeros(z + 1) + Digits(n, 10);
    } else {
      assert n / 10 == m && n % 10 == v;
      assert Zeros(z) + Digits(m, 10) + [DigitChar(v)] == Zeros(z) + Digits(n, 10);
    }
  }

  lemma ParseOneMore(front: string, v: nat, m: int)
    requires v < 10 && ParseDigits(front, 10) == Some(m)
    ensures ParseDigits(front + [DigitChar(v)], 10) == Some(m * 10 + v)
  {
    DigitRoundTrip(v, 10);
    assert (front + [DigitChar(v)])[..|front|] == front;
  }

  lemma {:induction false} LeadingZeros(z: nat, n: nat)
    ensures ParseDigits(Zeros(z) + Digits(n, 10), 10) == Some(n)
  {
    if n >= 10 {
      DivSmaller(n, 10);
      LeadingZeros(z, n / 10);
      ParseOneMore(Zeros(z) + Digits(n / 10, 10), n % 10, n / 10);
      assert Zeros(z) + Digits(n, 10) == Zeros(z) + Digits(n / 10, 10) + [DigitChar(n % 10)];
    } else {
      ZerosRead(z);
      if z > 0 {
        ParseOneMore(Zeros(z), n, 0);
      } else {
        DigitRoundTrip(n, 10);
        assert Zeros(0) + Digits(n, 10) == [DigitChar(n)];
      }
    }
  }

  lemma {:induction false} ZerosRead(z: nat)
    ensures z > 0 ==> ParseDigits(Zeros(z), 10) == Some(0)
  {
    if z > 1 {
      ZerosRead(z - 1);
      ParseOneMore(Zeros(z - 1), 0, 0);
      assert Zeros(z) == Zeros(z - 1) + [DigitChar(0)];
    }
  }

  /** `big.Int.Text` and, in base 10, `strconv.Itoa` */
  function Text(i: int, base: nat): string
    requires 2 <= base <= 16
  {
    if i < 0 then "-" + Digits(-i, base) else Digits(i, base)
  }

  /** `big.Int.SetString` in a given base */
  function SetString(s: string, base: nat): Option<int> {
    if s != "" && s[0] == '-' then
      var n := ParseDigits(s[1..], base);
      if n.None? then None else Some(-n.value)
    else if s != "" && s[0] == '+' then ParseDigits(s[1..], base)
    else ParseDigits(s, base)
  }

  const MinInt: int := -0x8000_0000_0000_0000
  const MaxInt: int := 0x7fff_ffff_ffff_ffff

  predicate IsInt64(i: int) { MinInt <= i <= MaxInt }

  function Itoa(i: int): string { Text(i, 10) }

  /** `strconv.Atoi`: a number outside 64 bits is an error. */
  function Atoi(s: string): Option<int> {
    var v := SetString(s, 10);
    if v.Some? && IsInt64(v.value) then v else None
  }

  /** n as printed, after an optional sign and any number of zeros */
  ghost predicate Numeral(s: string, sign: string, z: nat, n: nat) {
    sign in ["", "+", "-"] && s == sign + (Zeros(z) + Digits(n, 10))
  }

  ghost function Signed(sign: string, n: int): int {
    if sign == "-" then -n else n
  }

  /** Exactly the numerals within 64 bits are numbers. */
  lemma AtoiIff(s: string, i: int)
    ensures Atoi(s) == Some(i) <==> IsInt64(i) && exists sign, z, n: nat :: Numeral(s, sign, z, n) && i == Signed(sign, n)
  {
    if Atoi(s) == Some(i) {
      var sign := if s[0] == '-' then "-" else if s[0] == '+' then "+" else "";
      ParsedIsPrinted(s[|sign|..], Signed(sign, i));
      var z :| s[|sign|..] == Zeros(z) + Digits(Signed(sign, i), 10);
      assert Numeral(s, sign, z, Signed(sign, i));
    }
    forall sign, z, n: nat | Numeral(s, sign, z, n) ensures SetString(s, 10) == Some(Signed(sign, n)) {
      LeadingZeros(z, n);
      NumeralReads(sign, Zeros(z) + Digits(n, 10));
    }
  }

  /** A sign is read off before digits. */
  lemma NumeralReads(sign: string, t: string)
    requires sign in ["", "+", "-"] && t != "" && t[0] >= '0' && ParseDigits(t, 10).Some?
    ensures SetString(sign + t, 10) == Some(Signed(sign, ParseDigits(t, 10).value))
  {
    var s := sign + t;
    if sign == "" {
      assert s == t;
    } else {
      assert s[0] == sign[0] && s[1..] == t;
    }
  }

  /** `big.Int.Int64`: the low 64 bits, as a signed number */
  function Int64(i: int): int {
    (i - MinInt) % 0x1_0000_0000_0000_0000 + MinInt
  }

  lemma Int64Exact(i: int)
    requires IsInt64(i)
    ensures Int64(i) == i
  {
  }

  lemma TextRoundTrip(i: int, base: nat)
    requires 2 <= base <= 16
    ensures SetString(Text(i, base), base) == Some(i)
  {
    var n := if i < 0 then -i else i;
    ParseOfDigits(n, base);
    assert i < 0 ==> Text(i, base)[1..] == Digits(n, base);
  }

  lemma TextAvoids(i: int, base: nat, d: char)
    requires 2 <= base <= 16 && d < '-'
    ensures d !in Text(i, base)
  {
  }

  // ----- pss/types.go

  function GenerateKeygenID(i: int): string {
    Join(["SHARING", Text(i, 16)], Delimiter3)
  }

  /** `KeygenID.GetIndex`. None stands for the nil dereference after a failed conversion. */
  function GetIndex(id: string): Option<int> {
    var parts := Split(id, Delimiter3);
    if |parts| != 2 then Some(0)
    else
      var i := SetString(parts[1], 16);
      if i.None? then None else Some(Int64(i.value))
  }

  function Itoas(e: seq<int>): seq<string> {
    seq(|e|, i requires 0 <= i < |e| => Itoa(e[i]))
  }

  /** `GetSharingID`: the eight numbers of the two epochs, then the keygen id. */
  function GetSharingID(keygenID: string, e: seq<int>): string
    requires |e| == 8
  {
    Join(Itoas(e) + [keygenID], Delimiter2)
  }

  function GetKeygenID(sharingID: string): string {
    var parts := Split(sharingID, Delimiter2);
    if |parts| != 9 then "" else parts[8]
  }

  /** The loop of `GetEpochParams`, which stops at the first field that is not a number. */
  method GetEpochParams(sharingID: string) returns (r: Option<seq<int>>)
    ensures r == EpochParams(sharingID)
  {
    var parts := Split(sharingID, Delimiter2);
    if |parts| != 9 {
      return None;
    }
    var res: seq<int> := [];
    for i := 0 to 8
      invariant |res| == i && forall j :: 0 <= j < i ==> Atoi(parts[j]) == Some(res[j])
      invariant |parts| == 9
    {
      var v := Atoi(parts[i]);
      if v.None? {
        return None;
      }
      res := res + [v.value];
    }
    assert EpochParams(sharingID).value == res;
    r := Some(res);
  }

  function EpochParams(sharingID: string): Option<seq<int>> {
    var parts := Split(sharingID, Delimiter2);
    if |parts| == 9 && forall i :: 0 <= i < 8 ==> Atoi(parts[i]).Some?
    then Some(seq(8, i requires 0 <= i < 8 => Atoi(parts[i]).value))
    else None
  }

  /** Nine fields without the separator, the first eight of them the numbers e. */
  ghost predicate Fields(sharingID: string, parts: seq<string>, e: seq<int>) {
    && |parts| == 9 && |e| == 8 && (forall i :: 0 <= i < 9 ==> Delimiter2 !in parts[i])
    && sharingID == Join(parts, Delimiter2) && forall i :: 0 <= i < 8 ==> Atoi(parts[i]) == Some(e[i])
  }

  /** Exactly these identifiers carry parameters. */
  lemma EpochParamsIff(sharingID: string, e: seq<int>)
    ensures EpochParams(sharingID) == Some(e) <==> exists parts :: Fields(sharingID, parts, e)
  {
    if EpochParams(sharingID) == Some(e) {
      assert Fields(sharingID, Split(sharingID, Delimiter2), e);
    }
    if parts :| Fields(sharingID, parts, e) {
      SplitJoin(parts, Delimiter2);
      assert EpochParams(sharingID).value == e;
    }
  }

  class PSSIDDetails {
    var sharingID: string
    var dealerIndex: int

    function ToPSSID(): (r: string)
      reads this
      ensures r == PSSID(sharingID, dealerIndex)
    {
      Join([sharingID, Itoa(dealerIndex)], Delimiter1)
    }

    /** A bad dealer index leaves the new sharing id behind. */
    method FromPSSID(pssID: string) returns (ok: bool)
      modifies this
      ensures ok <==> ParsePair(pssID, Delimiter1).Some?
      ensures ok ==> (sharingID, dealerIndex) == ParsePair(pssID, Delimiter1).value
      ensures !ok ==> dealerIndex == old(dealerIndex)
      ensures sharingID == if |Split(pssID, Delimiter1)| == 2 then Split(pssID, Delimiter1)[0] else old(sharingID)
    {
      var parts := Split(pssID, Delimiter1);
      if |parts| != 2 {
        return false;
      }
      sharingID := parts[0];
      var index := Atoi(parts[1]);
      if index.None? {
        return false;
      }
      dealerIndex := index.value;
      ok := true;
    }
  }

  ghost function PSSID(sharingID: string, dealerIndex: int): string {
    Join([sharingID, Itoa(dealerIndex)], Delimiter1)
  }

  /** A name and a dealer index, as `FromPSSID` and `FromKeygenID` read them. */
  function ParsePair(id: string, d: char): Option<(string, int)> {
    var parts := Split(id, d);
    if |parts| == 2 && Atoi(parts[1]).Some? then Some((parts[0], Atoi(parts[1]).value)) else None
  }

  /** The identifier is the name, the separator and a number that reads as i. */
  ghost predicate Tagged(id: string, d: char, name: string, i: int) {
    d !in name && exists tail :: d !in tail && id == name + [d] + tail && Atoi(tail) == Some(i)
  }

  /** Exactly these identifiers parse. */
  lemma ParsePairIff(id: string, d: char, name: string, i: int)
    ensures ParsePair(id, d) == Some((name, i)) <==> Tagged(id, d, name, i)
  {
    if ParsePair(id, d) == Some((name, i)) {
      var parts := Split(id, d);
      assert parts == [parts[0], parts[1]];
      JoinPair(parts[0], parts[1], d);
    }
    if Tagged(id, d, name, i) {
      var tail :| d !in tail && id == name + [d] + tail && Atoi(tail) == Some(i);
      SplitHead(name, tail, d);
      SplitWhole(tail, d);
    }
  }

  // ----- round trips

  lemma KeygenIDRoundTrip(i: int)
    requires IsInt64(i)
    ensures GetIndex(GenerateKeygenID(i)) == Some(i)
    ensures Delimiter1 !in GenerateKeygenID(i) && Delimiter2 !in GenerateKeygenID(i)
  {
    var parts := ["SHARING", Text(i, 16)];
    TextAvoids(i, 16, Delimiter1);
    TextAvoids(i, 16, Delimiter2);
    TextAvoids(i, 16, Delimiter3);
    SplitJoin(parts, Delimiter3);
    TextRoundTrip(i, 16);
    Int64Exact(i);
    JoinAvoids(parts, Delimiter3, Delimiter1);
    JoinAvoids(parts, Delimiter3, Delimiter2);
  }

  lemma SharingIDRoundTrip(keygenID: string, e: seq<int>)
    requires |e| == 8 && (forall i :: 0 <= i < 8 ==> IsInt64(e[i]))
    requires Delimiter1 !in keygenID && Delimiter2 !in keygenID
    ensures EpochParams(GetSharingID(keygenID, e)) == Some(e)
    ensures GetKeygenID(GetSharingID(keygenID, e)) == keygenID
    ensures Delimiter1 !in GetSharingID(keygenID, e)
  {
    var parts := Itoas(e) + [keygenID];
    forall i | 0 <= i < 8
      ensures Delimiter1 !in parts[i] && Delimiter2 !in parts[i] && Atoi(parts[i]) == Some(e[i])
    {
      TextAvoids(e[i], 10, Delimiter1);
      TextAvoids(e[i], 10, Delimiter2);
      TextRoundTrip(e[i], 10);
    }
    SplitJoin(parts, Delimiter2);
    JoinAvoids(parts, Delimiter2, Delimiter1);
    assert EpochParams(GetSharingID(keygenID, e)).value == e;
  }

  lemma PSSIDRoundTrip(sharingID: string, dealer: int)
    requires Delimiter1 !in sharingID && IsInt64(dealer)
    ensures ParsePair(PSSID(sharingID, dealer), Delimiter1) == Some((sharingID, dealer))
  {
    TextAvoids(dealer, 10, Delimiter1);
    TextRoundTrip(dealer, 10);
    SplitJoin([sharingID, Itoa(dealer)], Delimiter1);
  }

  /** A PSSID spelled as `ToPSSID` spells it. */
  ghost predicate Plain(id: string) {
    var d := ParsePair(id, Delimiter1);
    d.Some? && id == PSSID(d.value.0, d.value.1)
  }

  lemma PlainSpelling(id: string)
    requires ParsePair(id, Delimiter1).Some?
    ensures var d := ParsePair(id, Delimiter1);
            Plain(PSSID(d.value.0, d.value.1)) && ParsePair(PSSID(d.value.0, d.value.1), Delimiter1) == d
  {
    var d := ParsePair(id, Delimiter1).value;
    PSSIDRoundTrip(d.0, d.1);
  }

  /** A PSSID that names a dealer has another, plain, spelling exactly if it is not plain itself. */
  lemma OtherSpellingIff(id: string)
    requires ParsePair(id, Delimiter1).Some?
    ensures !Plain(id) <==> exists other :: Plain(other) && other != id && ParsePair(other, Delimiter1) == ParsePair(id, Delimiter1)
  {
    PlainSpelling(id);
  }

  /** `ToKeygenID` and `FromKeygenID` of key generation. */
  lemma KeygenIDDetailsRoundTrip(dkgID: string, dealer: int)
    requires Delimiter4 !in dkgID && IsInt64(dealer)
    ensures ParsePair(Join([dkgID, Itoa(dealer)], Delimiter4), Delimiter4) == Some((dkgID, dealer))
  {
    TextAvoids(dealer, 10, Delimiter4);
    TextRoundTrip(dealer, 10);
    SplitJoin([dkgID, Itoa(dealer)], Delimiter4);
  }

  /** Every field comes back out of the nested identifier. */
  lemma NestedRoundTrip(i: int, e: seq<int>, dealer: int)
    requires IsInt64(i) && IsInt64(dealer) && |e| == 8 && forall j :: 0 <= j < 8 ==> IsInt64(e[j])
    ensures var sharingID := GetSharingID(GenerateKeygenID(i), e);
            && ParsePair(PSSID(sharingID, dealer), Delimiter1) == Some((sharingID, dealer))
            && EpochParams(sharingID) == Some(e)
            && GetIndex(GetKeygenID(sharingID)) == Some(i)
  {
    KeygenIDRoundTrip(i);
    SharingIDRoundTrip(GenerateKeygenID(i), e);
    PSSIDRoundTrip(GetSharingID(GenerateKeygenID(i), e), dealer);
  }

  /** Different sharings or dealers never share an identifier. */
  lemma NestedInjective(i: int, e: seq<int>, dealer: int, i': int, e': seq<int>, dealer': int)
    requires IsInt64(i) && IsInt64(dealer) && |e| == 8 && forall j :: 0 <= j < 8 ==> IsInt64(e[j])
    requires IsInt64(i') && IsInt64(dealer') && |e'| == 8 && forall j :: 0 <= j < 8 ==> IsInt64(e'[j])
    requires PSSID(GetSharingID(GenerateKeygenID(i), e), dealer) == PSSID(GetSharingID(GenerateKeygenID(i'), e'), dealer')
    ensures i == i' && e == e' && dealer == dealer'
  {
    NestedRoundTrip(i, e, dealer);
    NestedRoundTrip(i', e', dealer');
  }

  // ----- keygennofsm/types.go and the verifier keys of dkgnode/abci_app.go

  /** `GenerateDKGID` prints what pss prints as a keygen id. */
  function GenerateDKGID(i: int): string { GenerateKeygenID(i) }

  function DKGIndex(id: string): Option<int> {
    var parts := Split(id, Delimiter3);
    if |parts| != 2 then None else SetString(parts[1], 16)
  }

  ghost predicate NameAndIndex(id: string, name: string, index: string, i: int) {
    Delimiter3 !in name && Delimiter3 !in index && id == name + [Delimiter3] + index && SetString(index, 16) == Some(i)
  }

  /** Exactly these identifiers name a key; the name itself is not looked at. */
  lemma DKGIndexIff(id: string, i: int)
    ensures DKGIndex(id) == Some(i) <==> exists name, index :: NameAndIndex(id, name, index, i)
  {
    var parts := Split(id, Delimiter3);
    if DKGIndex(id) == Some(i) {
      assert parts == [parts[0], parts[1]];
      JoinPair(parts[0], parts[1], Delimiter3);
      assert NameAndIndex(id, parts[0], parts[1], i);
    }
    if name, index :| NameAndIndex(id, name, index, i) {
      SplitHead(name, index, Delimiter3);
      SplitWhole(index, Delimiter3);
    }
  }

  /** Key indexes are unbounded here: no 64-bit step on the way. */
  lemma DKGIDRoundTrip(i: int)
    ensures DKGIndex(GenerateDKGID(i)) == Some(i)
  {
    TextAvoids(i, 16, Delimiter3);
    TextRoundTrip(i, 16);
    SplitJoin(["SHARING", Text(i, 16)], Delimiter3);
  }

  lemma DKGIDAvoids(i: int)
    ensures Delimiter4 !in GenerateDKGID(i)
  {
    TextAvoids(i, 16, Delimiter4);
    JoinAvoids(["SHARING", Text(i, 16)], Delimiter3, Delimiter4);
  }

  function VerifierKey(verifier: string, verifierID: string): string {
    Join([verifier, verifierID], Delimiter1)
  }

  /** The key names one user if verifier names hold no separator; the user id may hold any character. */
  lemma VerifierKeyInjective(v: string, id: string, v': string, id': string)
    requires Delimiter1 !in v && Delimiter1 !in v' && VerifierKey(v, id) == VerifierKey(v', id')
    ensures v == v' && id == id'
  {
    JoinPair(v, id, Delimiter1);
    JoinPair(v', id', Delimiter1);
    SplitHead(v, id, Delimiter1);
    SplitHead(v', id', Delimiter1);
    assert ([v] + Split(id, Delimiter1))[0] == v && ([v'] + Split(id', Delimiter1))[0] == v';
    assert (v + [Delimiter1] + id)[|v| + 1..] == id && (v' + [Delimiter1] + id')[|v'| + 1..] == id';
  }

  /** The verifier names that a plain name can collide with, for some users, are exactly those that hold a separator. */
  lemma VerifierKeyCollidesIff(v: string)
    ensures Delimiter1 in v <==> exists id, v', id' :: Collides(v, id, v', id')
  {
    if Delimiter1 in v {
      var n :| 0 <= n < |v| && v[n] == Delimiter1;
      FirstSeparator(v, n);
    }
    forall id, v', id' | Collides(v, id, v', id') ensures Delimiter1 in v {
      if Delimiter1 !in v {
        VerifierKeyInjective(v, id, v', id');
      }
    }
  }

  ghost predicate Collides(v: string, id: string, v': string, id': string) {
    Delimiter1 !in v' && v' != v && VerifierKey(v, id) == VerifierKey(v', id')
  }

  /** Cut at its first separator, a name gives the other user. */
  lemma {:induction false} FirstSeparator(v: string, n: nat)
    requires n < |v| && v[n] == Delimiter1
    ensures exists id, v', id' :: Collides(v, id, v', id')
    decreases n
  {
    if Delimiter1 in v[..n] {
      var m :| 0 <= m < n && v[m] == Delimiter1;
      FirstSeparator(v, m);
    } else {
      var v', id' := v[..n], v[n + 1..] + [Delimiter1];
      JoinPair(v, "", Delimiter1);
      JoinPair(v', id', Delimiter1);
      assert v + [Delimiter1] + "" == v' + [Delimiter1] + id';
      assert Collides(v, "", v', id');
    }
  }

  /** Without that condition two users can meet under one key. */
  lemma VerifierKeyCollides()
    ensures VerifierKey("a" + [Delimiter1] + "b", "c") == VerifierKey("a", "b" + [Delimiter1] + "c")
  {
    var left, right := "a" + [Delimiter1] + "b", "b" + [Delimiter1] + "c";
    JoinPair(left, "c", Delimiter1);
    JoinPair("a", right, Delimiter1);
    assert left + [Delimiter1] + "c" == "a" + [Delimiter1] + right;
  }
}
