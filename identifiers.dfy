/**
 * Identifier helpers of `seantis/reservation/utils.py`: `is_uuid`,
 * `generate_uuids` (the quota mirrors of a resource), `uuid_query` and
 * `request_id_as_int`.
 */
module Identifiers {
  import opened Wrappers
  import opened Decimal

  /** A UUID in its canonical text form: 32 lower-case hex digits. */
  type Uuid = string

  predicate IsLowerHex(c: char) {
    '0' <= c <= '9' || 'a' <= c <= 'f'
  }

  predicate AllLowerHex(s: string) {
    forall i :: 0 <= i < |s| ==> IsLowerHex(s[i])
  }

  // ---------------------------------------------------------------------
  // is_uuid

  /** What `is_uuid` may be given: a string, a `UUID` object or anything else. */
  datatype UuidArg = Text(text: string) | UuidObject(hex: Uuid) | OtherObject

  /** The lengths of the five hex groups of the pattern. */
  const Groups: seq<nat> := [8, 4, 4, 4, 12]

  /** `n` lower-case hex characters at position `i`. */
  predicate HexRun(s: string, i: nat, n: nat) {
    i + n <= |s| && AllLowerHex(s[i..i + n])
  }

  /**
   * The pattern from position `i` on: each group but the first may be preceded
   * by one optional hyphen. A hyphen can never be a hex digit, so taking it
   * whenever it is there is the only way the regex can match.
   */
  predicate MatchGroups(s: string, i: nat, groups: seq<nat>, first: bool)
    decreases |groups|
  {
    if groups == [] then true
    else
      var j := if !first && i < |s| && s[i] == '-' then i + 1 else i;
      HexRun(s, j, groups[0]) && MatchGroups(s, j + groups[0], groups[1..], false)
  }

  /** `re.match(_uuid_regex, s)`: anchored at the start only, so anything may follow. */
  predicate UuidMatch(s: string) {
    MatchGroups(s, 0, Groups, true)
  }

  /** `is_uuid(obj)`: strings are matched against the pattern, `UUID` objects always pass. */
  predicate IsUuid(obj: UuidArg) {
    match obj
    case Text(s) => UuidMatch(s)
    case UuidObject(_) => true
    case OtherObject => false
  }

  /** The five groups of a 32-character string joined with hyphens. */
  function Dashed(h: string): (d: string)
    requires |h| == 32
    ensures |d| == 36
    ensures d[..8] == h[..8] && d[8] == '-' && d[9..13] == h[8..12] && d[13] == '-'
    ensures d[14..18] == h[12..16] && d[18] == '-' && d[19..23] == h[16..20] && d[23] == '-'
    ensures d[24..] == h[20..]
  {
    var p1 := h[..8] + "-";
    var p2 := p1 + h[8..12] + "-";
    var p3 := p2 + h[12..16] + "-";
    var p4 := p3 + h[16..20] + "-";
    assert |p1| == 9 && |p2| == 14 && |p3| == 19 && |p4| == 24;
    assert (p4 + h[20..])[..24] == p4 && (p4 + h[20..])[24..] == h[20..];
    assert p4[..19] == p3 && p3[..14] == p2 && p2[..9] == p1;
    h[..8] + "-" + h[8..12] + "-" + h[12..16] + "-" + h[16..20] + "-" + h[20..]
  }

  lemma HexSlice(h: string, i: nat, j: nat)
    requires AllLowerHex(h) && i <= j <= |h|
    ensures AllLowerHex(h[i..j])
  {
  }

  /** Both the plain and the hyphenated canonical form are recognised. */
  lemma CanonicalFormsMatch(h: string)
    requires |h| == 32 && AllLowerHex(h)
    ensures UuidMatch(h) && UuidMatch(Dashed(h))
  {
    HexSlice(h, 0, 8);
    HexSlice(h, 8, 12);
    HexSlice(h, 12, 16);
    HexSlice(h, 16, 20);
    HexSlice(h, 20, 32);
    var d := Dashed(h);
    assert d[0..8] == d[..8] && h[0..8] == h[..8];
    assert d[24..36] == d[24..] && h[20..32] == h[20..];
    assert MatchGroups(d, 23, [12], false);
    assert MatchGroups(d, 18, [4, 12], false);
    assert MatchGroups(d, 13, [4, 4, 12], false);
    assert MatchGroups(d, 8, [4, 4, 4, 12], false);
    assert Groups[1..] == [4, 4, 4, 12];
    assert MatchGroups(h, 20, [12], false);
    assert MatchGroups(h, 16, [4, 12], false);
    assert MatchGroups(h, 12, [4, 4, 12], false);
    assert MatchGroups(h, 8, [4, 4, 4, 12], false);
  }

  lemma {:induction false} MatchGroupsExtend(s: string, t: string, i: nat, groups: seq<nat>, first: bool)
    requires forall k :: 0 <= k < |groups| ==> groups[k] > 0
    requires MatchGroups(s, i, groups, first)
    ensures MatchGroups(s + t, i, groups, first)
    decreases |groups|
  {
    if groups != [] {
      assert i < |s|;
      var j := if !first && i < |s| && s[i] == '-' then i + 1 else i;
      assert (s + t)[j..j + groups[0]] == s[j..j + groups[0]];
      assert i < |s| ==> (s + t)[i] == s[i];
      MatchGroupsExtend(s, t, j + groups[0], groups[1..], false);
    }
  }

  /** The match is anchored at the start only: trailing text never spoils it. */
  lemma UuidMatchIgnoresSuffix(s: string, t: string)
    requires UuidMatch(s)
    ensures UuidMatch(s + t)
  {
    MatchGroupsExtend(s, t, 0, Groups, true);
  }

  function Sum(groups: seq<nat>): nat {
    if groups == [] then 0 else groups[0] + Sum(groups[1..])
  }

  lemma {:induction false} MatchGroupsLength(s: string, i: nat, groups: seq<nat>, first: bool)
    requires i <= |s| && MatchGroups(s, i, groups, first)
    ensures i + Sum(groups) <= |s|
    decreases |groups|
  {
    if groups != [] {
      var j := if !first && i < |s| && s[i] == '-' then i + 1 else i;
      MatchGroupsLength(s, j + groups[0], groups[1..], false);
      assert Sum(groups) == groups[0] + Sum(groups[1..]);
    }
  }

  /** A string shorter than 32 characters is refused. */
  lemma UuidMatchLength(s: string)
    ensures UuidMatch(s) ==> |s| >= 32
  {
    if UuidMatch(s) {
      MatchGroupsLength(s, 0, Groups, true);
    }
  }

  /** A run of lower-case hex split at `j` is lower-case hex on both sides. */
  lemma HexJoin(h: string, i: nat, j: nat, k: nat)
    requires i <= j <= k <= |h| && AllLowerHex(h[i..j]) && AllLowerHex(h[j..k])
    ensures AllLowerHex(h[i..k])
  {
    forall n | i <= n < k
      ensures IsLowerHex(h[n])
    {
      if n < j {
        assert h[i..j][n - i] == h[n];
      } else {
        assert h[j..k][n - j] == h[n];
      }
    }
    assert forall n :: 0 <= n < k - i ==> h[i..k][n] == h[i + n];
  }

  /** A match with no hyphen at 8, 12, 16 and 20 has its five groups in hex, back to back. */
  lemma PlainRuns(h: string)
    requires |h| >= 21 && h[8] != '-' && h[12] != '-' && h[16] != '-' && h[20] != '-' && UuidMatch(h)
    ensures HexRun(h, 0, 8) && HexRun(h, 8, 4) && HexRun(h, 12, 4) && HexRun(h, 16, 4) && HexRun(h, 20, 12)
  {
    assert Groups[1..] == [4, 4, 4, 12];
    assert HexRun(h, 0, 8) && MatchGroups(h, 8, [4, 4, 4, 12], false);
    assert HexRun(h, 8, 4) && MatchGroups(h, 12, [4, 4, 12], false);
    assert HexRun(h, 12, 4) && MatchGroups(h, 16, [4, 12], false);
    assert HexRun(h, 16, 4) && MatchGroups(h, 20, [12], false);
  }

  /** A plain 32-character spelling matches only when every character is lower-case hex. */
  lemma PlainMatchIsHex(h: string)
    requires |h| == 32 && '-' !in h && UuidMatch(h)
    ensures AllLowerHex(h)
  {
    assert h[8] != '-' && h[12] != '-' && h[16] != '-' && h[20] != '-';
    PlainRuns(h);
    HexJoin(h, 0, 8, 12);
    HexJoin(h, 0, 12, 16);
    HexJoin(h, 0, 16, 20);
    HexJoin(h, 0, 20, 32);
    assert h[0..32] == h;
  }

  /** The hyphenated spelling matches only when the plain one is lower-case hex. */
  /** A 36-character match with hyphens at 8, 13, 18 and 23 has its five groups in hex. */
  lemma DashedRuns(d: string)
    requires |d| == 36 && d[8] == '-' && d[13] == '-' && d[18] == '-' && d[23] == '-' && UuidMatch(d)
    ensures HexRun(d, 0, 8) && HexRun(d, 9, 4) && HexRun(d, 14, 4) && HexRun(d, 19, 4) && HexRun(d, 24, 12)
  {
    assert Groups[1..] == [4, 4, 4, 12];
    assert HexRun(d, 0, 8) && MatchGroups(d, 8, [4, 4, 4, 12], false);
    assert HexRun(d, 9, 4) && MatchGroups(d, 13, [4, 4, 12], false);
    assert HexRun(d, 14, 4) && MatchGroups(d, 18, [4, 12], false);
    assert HexRun(d, 19, 4) && MatchGroups(d, 23, [12], false);
  }

  lemma DashedMatchIsHex(h: string)
    requires |h| == 32 && '-' !in h && UuidMatch(Dashed(h))
    ensures AllLowerHex(h)
  {
    var d := Dashed(h);
    DashedRuns(d);
    assert d[0..8] == d[..8] && h[0..8] == h[..8];
    assert d[24..36] == d[24..] && h[20..32] == h[20..];
    HexJoin(h, 0, 8, 12);
    HexJoin(h, 0, 12, 16);
    HexJoin(h, 0, 16, 20);
    HexJoin(h, 0, 20, 32);
    assert h[0..32] == h;
  }

  /**
   * The pattern has no IGNORECASE flag: a 32-character identifier, plain or
   * hyphenated, matches exactly when it is all lower-case hex, so one
   * upper-case hex digit anywhere refuses it.
   */
  lemma UuidMatchLowerCaseOnly(h: string)
    requires |h| == 32 && '-' !in h
    ensures UuidMatch(h) <==> AllLowerHex(h)
    ensures UuidMatch(Dashed(h)) <==> AllLowerHex(h)
    ensures (exists i :: 0 <= i < |h| && 'A' <= h[i] <= 'F') ==> !UuidMatch(h) && !UuidMatch(Dashed(h))
  {
    if AllLowerHex(h) {
      CanonicalFormsMatch(h);
    }
    if UuidMatch(h) {
      PlainMatchIsHex(h);
    }
    if UuidMatch(Dashed(h)) {
      DashedMatchIsHex(h);
    }
  }

  /**
   * `is_uuid`: a `UUID` object always passes, an object that is neither a
   * string nor a `UUID` never does, and a 32-character identifier passes, plain
   * or hyphenated, exactly when it is lower-case hex.
   */
  lemma IsUuidCases(u: Uuid, h: string)
    requires |h| == 32 && '-' !in h
    ensures IsUuid(UuidObject(u)) && !IsUuid(OtherObject)
    ensures IsUuid(Text(h)) <==> AllLowerHex(h)
    ensures IsUuid(Text(Dashed(h))) <==> AllLowerHex(h)
  {
    UuidMatchLowerCaseOnly(h);
  }

  // ---------------------------------------------------------------------
  // generate_uuids

  /**
   * `generate_uuids(uuid, quota)`: the mirror identifiers 1 .. quota-1, each the
   * name-based UUID (`uuid5`, version 5 of section 4.3 of RFC 4122) of the
   * primary identifier and the decimal index. `uuid5` is a parameter: its
   * SHA-1 digest is not part of this model.
   */
  function GenerateUuids(uuid5: (Uuid, string) -> Uuid, uuid: Uuid, quota: int): (r: seq<Uuid>)
    ensures |r| == if quota > 1 then quota - 1 else 0
    ensures forall k :: 0 <= k < |r| ==> r[k] == uuid5(uuid, NatToString(k + 1))
  {
    seq(if quota > 1 then quota - 1 else 0, k requires 0 <= k => uuid5(uuid, NatToString(k + 1)))
  }

  /** Raising the quota by one keeps the existing mirrors and appends one. */
  lemma GenerateUuidsGrow(uuid5: (Uuid, string) -> Uuid, uuid: Uuid, quota: int)
    requires quota >= 1
    ensures GenerateUuids(uuid5, uuid, quota + 1) == GenerateUuids(uuid5, uuid, quota) + [uuid5(uuid, NatToString(quota))]
  {
  }

  /**
   * When `uuid5` does not collide (distinct names give distinct identifiers,
   * none equal to the namespace), the mirrors are pairwise distinct and the
   * primary identifier is not among them.
   */
  lemma MirrorsDistinct(uuid5: (Uuid, string) -> Uuid, uuid: Uuid, quota: int)
    requires forall a: string, b: string :: uuid5(uuid, a) == uuid5(uuid, b) ==> a == b
    requires forall a: string :: uuid5(uuid, a) != uuid
    ensures var r := GenerateUuids(uuid5, uuid, quota);
            uuid !in r && forall j, k :: 0 <= j < k < |r| ==> r[j] != r[k]
  {
    var r := GenerateUuids(uuid5, uuid, quota);
    forall j, k | 0 <= j < k < |r|
      ensures r[j] != r[k]
    {
      if r[j] == r[k] {
        NatToStringInjective(j + 1, k + 1);
      }
    }
  }

  // ---------------------------------------------------------------------
  // uuid_query

  /** `s.replace(c, '')`. */
  function RemoveChar(s: string, c: char): (r: string)
    ensures |r| <= |s|
  {
    if s == [] then [] else (if s[0] == c then [] else [s[0]]) + RemoveChar(s[1..], c)
  }

  /** No occurrence of `c` survives, and every other character is kept. */
  lemma {:induction false} RemoveCharSpec(s: string, c: char)
    ensures c !in RemoveChar(s, c)
    ensures c !in s ==> RemoveChar(s, c) == s
  {
    if s != [] {
      RemoveCharSpec(s[1..], c);
      assert c !in s ==> c !in s[1..];
    }
  }

  lemma {:induction false} RemoveCharConcat(a: string, b: string, c: char)
    ensures RemoveChar(a + b, c) == RemoveChar(a, c) + RemoveChar(b, c)
  {
    if a != [] {
      assert (a + b)[0] == a[0] && (a + b)[1..] == a[1..] + b;
      RemoveCharConcat(a[1..], b, c);
      var x := if a[0] == c then [] else [a[0]];
      calc {
        RemoveChar(a + b, c);
        x + RemoveChar(a[1..] + b, c);
        x + (RemoveChar(a[1..], c) + RemoveChar(b, c));
        (x + RemoveChar(a[1..], c)) + RemoveChar(b, c);
        RemoveChar(a, c) + RemoveChar(b, c);
      }
    } else {
      assert a + b == b;
    }
  }

  /** Python's `s[i:j]` for non-negative bounds: both are clipped to the length. */
  function Slice(s: string, i: nat, j: nat): string {
    var a := if i < |s| then i else |s|;
    var b := if j < a then a else if j < |s| then j else |s|;
    s[a..b]
  }

  /**
   * `uuid_query(uuid)` on the canonical text of the identifier: the pair of its
   * plain and its hyphenated spelling, so a catalog query finds either.
   */
  function UuidQuery(uuid: string): (r: (string, string))
    ensures '-' !in r.0
    ensures '-' in uuid ==> r.1 == uuid
    ensures '-' !in uuid ==> r.0 == uuid
  {
    if '-' in uuid then RemoveCharSpec(uuid, '-'); (RemoveChar(uuid, '-'), uuid)
    else (uuid, Slice(uuid, 0, 8) + "-" + Slice(uuid, 8, 12) + "-" + Slice(uuid, 12, 16) + "-"
                + Slice(uuid, 16, 20) + "-" + Slice(uuid, 20, |uuid|))
  }

  /** A slice of a string without `c` has no `c` and loses none when `c` is removed. */
  lemma RemoveCharSlice(h: string, i: nat, j: nat, c: char)
    requires c !in h && i <= j <= |h|
    ensures RemoveChar(h[i..j], c) == h[i..j]
  {
    assert forall k :: 0 <= k < j - i ==> h[i..j][k] == h[i + k];
    RemoveCharSpec(h[i..j], c);
  }

  /** The plain spelling of a 32-character identifier is paired with its 8-4-4-4-12 form (section 3 of RFC 4122). */
  lemma UuidQueryPlain(h: string)
    requires |h| == 32 && '-' !in h
    ensures UuidQuery(h) == (h, Dashed(h))
  {
    assert Slice(h, 0, 8) == h[..8] && Slice(h, 20, |h|) == h[20..];
  }

  /** The hyphenated spelling gives the same pair, so a catalog query finds either. */
  lemma UuidQueryDashed(h: string)
    requires |h| == 32 && '-' !in h
    ensures UuidQuery(Dashed(h)) == (h, Dashed(h))
  {
    var d := Dashed(h);
    assert d[8] == '-';
    assert RemoveChar(d, '-') == h by {
      DashedUndashed(h);
    }
  }

  /** Removing the hyphens of the hyphenated form gives the plain form back. */
  lemma DashedUndashed(h: string)
    requires |h| == 32 && '-' !in h
    ensures RemoveChar(Dashed(h), '-') == h
  {
    RemoveCharSlice(h, 0, 8, '-');
    RemoveCharSlice(h, 8, 12, '-');
    RemoveCharSlice(h, 12, 16, '-');
    RemoveCharSlice(h, 16, 20, '-');
    RemoveCharSlice(h, 20, 32, '-');
    assert h[0..8] == h[..8] && h[20..32] == h[20..];
    RemoveCharGroups(h[..8], h[8..12], h[12..16], h[16..20], h[20..], '-');
    assert h[..8] + h[8..12] == h[..12];
    assert h[..12] + h[12..16] == h[..16];
    assert h[..16] + h[16..20] == h[..20];
    assert h[..20] + h[20..] == h;
  }

  /** Removing the separators of groups that hold none concatenates the groups. */
  lemma RemoveCharGroups(g1: string, g2: string, g3: string, g4: string, g5: string, c: char)
    requires RemoveChar(g1, c) == g1 && RemoveChar(g2, c) == g2 && RemoveChar(g3, c) == g3
    requires RemoveChar(g4, c) == g4 && RemoveChar(g5, c) == g5
    ensures RemoveChar(g1 + [c] + g2 + [c] + g3 + [c] + g4 + [c] + g5, c) == g1 + g2 + g3 + g4 + g5
  {
    var x2 := g1 + [c] + g2;
    var x3 := x2 + [c] + g3;
    var x4 := x3 + [c] + g4;
    RemoveCharJoin(g1, g2, c);
    RemoveCharJoin(x2, g3, c);
    RemoveCharJoin(x3, g4, c);
    RemoveCharJoin(x4, g5, c);
  }

  lemma RemoveCharJoin(x: string, y: string, c: char)
    ensures RemoveChar(x + [c] + y, c) == RemoveChar(x, c) + RemoveChar(y, c)
  {
    RemoveCharConcat(x + [c], y, c);
    RemoveCharConcat(x, [c], c);
    assert RemoveChar([c], c) == [] by {
      assert [c][1..] == [];
    }
  }

  // ---------------------------------------------------------------------
  // request_id_as_int

  /** `''.join(re.findall(r'\d', s))`: the ASCII digits of `s`, in order. */
  function DigitsOf(s: string): (d: string)
    ensures AllDigits(d) && |d| <= |s|
  {
    if s == [] then [] else (if IsDigit(s[0]) then [s[0]] else []) + DigitsOf(s[1..])
  }

  lemma {:induction false} DigitsOfConcat(a: string, b: string)
    ensures DigitsOf(a + b) == DigitsOf(a) + DigitsOf(b)
  {
    if a != [] {
      assert (a + b)[0] == a[0] && (a + b)[1..] == a[1..] + b;
      DigitsOfConcat(a[1..], b);
      var x := if IsDigit(a[0]) then [a[0]] else [];
      calc {
        DigitsOf(a + b);
        x + DigitsOf(a[1..] + b);
        x + (DigitsOf(a[1..]) + DigitsOf(b));
        (x + DigitsOf(a[1..])) + DigitsOf(b);
        DigitsOf(a) + DigitsOf(b);
      }
    } else {
      assert a + b == b;
    }
  }

  lemma {:induction false} DigitsOfEmpty(s: string)
    ensures DigitsOf(s) == [] <==> forall i :: 0 <= i < |s| ==> !IsDigit(s[i])
  {
    if s != [] {
      DigitsOfEmpty(s[1..]);
      assert forall i :: 1 <= i < |s| ==> s[i] == s[1..][i - 1];
    }
  }

  lemma {:induction false} DigitsOfDigits(s: string)
    requires AllDigits(s)
    ensures DigitsOf(s) == s
  {
    if s != [] {
      DigitsOfDigits(s[1..]);
    }
  }

  datatype ParseError = ValueError

  /**
   * `request_id_as_int(string)`: `None` gives 0; otherwise the digits of the
   * string are read as one number, and a string without digits makes `int('')`
   * raise ValueError.
   */
  function RequestIdAsInt(s: Option<string>): (r: Result<nat, ParseError>)
    ensures r.Failure? <==> s.Some? && DigitsOf(s.value) == []
  {
    match s
    case None => Success(0)
    case Some(text) =>
      var digits := DigitsOf(text);
      if digits == [] then Failure(ValueError) else Success(ParseDigits(digits))
  }

  /** It fails exactly on a string with no digit at all. */
  lemma RequestIdFails(text: string)
    ensures RequestIdAsInt(Some(text)).Failure? <==> forall i :: 0 <= i < |text| ==> !IsDigit(text[i])
  {
    DigitsOfEmpty(text);
  }

  /** A number written out is read back. */
  lemma RequestIdRoundTrip(n: nat)
    ensures RequestIdAsInt(Some(NatToString(n))) == Success(n)
  {
    DigitsOfDigits(NatToString(n));
    ParseNatToString(n);
  }

  /** Characters other than digits are skipped wherever they occur. */
  lemma RequestIdSkipsNonDigit(a: string, c: char, b: string)
    requires !IsDigit(c)
    ensures RequestIdAsInt(Some(a + [c] + b)) == RequestIdAsInt(Some(a + b))
  {
    DigitsOfConcat(a + [c], b);
    DigitsOfConcat(a, [c]);
    DigitsOfConcat(a, b);
    assert DigitsOf([c]) == [] by {
      assert [c][1..] == [];
    }
    assert DigitsOf(a + [c]) == DigitsOf(a);
    assert DigitsOf(a + [c] + b) == DigitsOf(a + b);
  }

  /** The docstring's example: `?id=11.11` is request 1111. */
  lemma RequestIdExample()
    ensures RequestIdAsInt(Some("11.11")) == Success(1111)
  {
    RequestIdSkipsNonDigit("11", '.', "11");
    assert "11" + ['.'] + "11" == "11.11";
    assert "11" + "11" == "1111";
    assert DigitsOf("1111") == "1111" by {
      DigitsOfDigits("1111");
    }
    assert ParseDigits("1111") == 1111 by {
      assert "1111"[..3] == "111" && "111"[..2] == "11" && "11"[..1] == "1" && "1"[..0] == "";
      assert ParseDigits("1") == 1;
      assert ParseDigits("11") == 11;
      assert ParseDigits("111") == 111;
    }
  }
}
