/** base64 and unbase64 (RFC 4648 section 4) into exactly sized buffers. */
module Base64 {
  import opened Common
  import opened Bytes

  const PAD := '='

  /** The largest length whose encoding fits the program's ints. */
  const MAX_LEN := 536_870_910

  function Digit(n: int): char
    requires 0 <= n < 64
  {
    if n < 26 then ('A' as int + n) as char
    else if n < 52 then ('a' as int + n - 26) as char
    else if n < 62 then ('0' as int + n - 52) as char
    else if n == 62 then '+'
    else '/'
  }

  /** The table unb64: zero for everything that is not a digit. */
  function Undigit(c: char): (n: int)
    ensures 0 <= n < 64
  {
    if 'A' <= c <= 'Z' then c as int - 'A' as int
    else if 'a' <= c <= 'z' then c as int - 'a' as int + 26
    else if '0' <= c <= '9' then c as int - '0' as int + 52
    else if c == '+' then 62
    else if c == '/' then 63
    else 0
  }

  lemma UndigitOfDigit(n: int)
    requires 0 <= n < 64
    ensures Undigit(Digit(n)) == n && Digit(n) != PAD
  {
  }

  // ----- Groups of three bytes and of four characters -----

  function Group3(x: byte, y: byte, z: byte): (s: string)
    ensures |s| == 4
  {
    [Digit(x / 4), Digit(x % 4 * 16 + y / 16), Digit(y % 16 * 4 + z / 64), Digit(z % 64)]
  }

  function Group2(x: byte, y: byte): (s: string)
    ensures |s| == 4
  {
    [Digit(x / 4), Digit(x % 4 * 16 + y / 16), Digit(y % 16 * 4), PAD]
  }

  function Group1(x: byte): (s: string)
    ensures |s| == 4
  {
    [Digit(x / 4), Digit(x % 4 * 16), PAD, PAD]
  }

  function Encoded(d: seq<byte>): (s: string)
    ensures |s| % 4 == 0
  {
    if |d| == 0 then ""
    else if |d| == 1 then Group1(d[0])
    else if |d| == 2 then Group2(d[0], d[1])
    else
      var rest := Encoded(d[3..]);
      assert (4 + |rest|) % 4 == 0;
      Group3(d[0], d[1], d[2]) + rest
  }

  function First(a: int, b: int): (x: byte)
    requires 0 <= a < 64 && 0 <= b < 64
  {
    a * 4 + b / 16
  }

  function Second(b: int, c: int): (x: byte)
    requires 0 <= b < 64 && 0 <= c < 64
  {
    (b * 16 + c / 4) % 256
  }

  function Third(c: int, d: int): (x: byte)
    requires 0 <= c < 64 && 0 <= d < 64
  {
    (c * 64 + d) % 256
  }

  /** How many of the last two characters are padding. */
  function Padding(s: string): (n: int)
    requires |s| >= 2
    ensures 0 <= n <= 2
  {
    (if s[|s| - 1] == PAD then 1 else 0) + (if s[|s| - 2] == PAD then 1 else 0)
  }

  /** The first `count` bytes of a group; they take one character more. */
  function GroupBytes(s: string, count: int): (d: seq<byte>)
    requires 1 <= count <= 3 && count < |s|
    ensures |d| == count
  {
    var a, b := Undigit(s[0]), Undigit(s[1]);
    if count == 1 then [First(a, b)]
    else if count == 2 then [First(a, b), Second(b, Undigit(s[2]))]
    else [First(a, b), Second(b, Undigit(s[2])), Third(Undigit(s[2]), Undigit(s[3]))]
  }

  function Decoded(s: string): seq<byte>
    requires |s| % 4 == 0
  {
    if s == "" then []
    else if |s| == 4 then GroupBytes(s, 3 - Padding(s))
    else GroupBytes(s, 3) + Decoded(s[4..])
  }

  // ----- Round trip -----

  lemma Group3RoundTrip(x: byte, y: byte, z: byte)
    ensures GroupBytes(Group3(x, y, z), 3) == [x, y, z] && Padding(Group3(x, y, z)) == 0
  {
    Sextets(x, y, z);
    UndigitOfDigit(x / 4);
    UndigitOfDigit(x % 4 * 16 + y / 16);
    UndigitOfDigit(y % 16 * 4 + z / 64);
    UndigitOfDigit(z % 64);
  }

  lemma Group2RoundTrip(x: byte, y: byte)
    ensures GroupBytes(Group2(x, y), 2) == [x, y] && Padding(Group2(x, y)) == 1
  {
    Sextets(x, y, 0);
    UndigitOfDigit(x / 4);
    UndigitOfDigit(x % 4 * 16 + y / 16);
    UndigitOfDigit(y % 16 * 4);
  }

  lemma Group1RoundTrip(x: byte)
    ensures GroupBytes(Group1(x), 1) == [x] && Padding(Group1(x)) == 2
  {
    Sextets(x, 0, 0);
    UndigitOfDigit(x / 4);
    UndigitOfDigit(x % 4 * 16);
  }

  /** Four sextets carry three bytes. */
  lemma Sextets(x: byte, y: byte, z: byte)
    ensures First(x / 4, x % 4 * 16 + y / 16) == x
    ensures Second(x % 4 * 16 + y / 16, y % 16 * 4 + z / 64) == y
    ensures Third(y % 16 * 4 + z / 64, z % 64) == z
  {
    var b, c := x % 4 * 16 + y / 16, y % 16 * 4 + z / 64;
    assert b / 16 == x % 4 && b * 16 == x % 4 * 256 + y / 16 * 16;
    assert c / 4 == y % 16 && c * 64 == y % 16 * 256 + z / 64 * 64;
  }

  lemma {:induction false} EncodedLength(d: seq<byte>)
    ensures |Encoded(d)| == 4 * ((|d| + 2) / 3)
    decreases |d|
  {
    if |d| >= 3 {
      EncodedLength(d[3..]);
      assert (|d| + 2) / 3 == 1 + (|d| - 1) / 3;
    }
  }

  lemma DecodedLong(x: byte, y: byte, z: byte, rest: string)
    requires |rest| % 4 == 0
    ensures Decoded(Group3(x, y, z) + rest) == [x, y, z] + Decoded(rest)
  {
    Group3RoundTrip(x, y, z);
    DecodedGroup(Group3(x, y, z), rest);
  }

  lemma DecodedGroup(group: string, rest: string)
    requires |group| == 4 && |rest| % 4 == 0 && Padding(group) == 0
    ensures Decoded(group + rest) == GroupBytes(group, 3) + Decoded(rest)
  {
    if rest == "" {
      assert group + rest == group && GroupBytes(group, 3) + [] == GroupBytes(group, 3);
    } else {
      assert (group + rest)[4..] == rest && GroupBytes(group + rest, 3) == GroupBytes(group, 3);
    }
  }

  lemma FirstThree(d: seq<byte>)
    requires |d| >= 3
    ensures [d[0], d[1], d[2]] + d[3..] == d
  {
  }

  /** Decoding undoes encoding. */
  lemma {:induction false} RoundTrip(d: seq<byte>)
    ensures Decoded(Encoded(d)) == d
    decreases |d|
  {
    if |d| == 0 {
    } else if |d| == 1 {
      Group1RoundTrip(d[0]);
    } else if |d| == 2 {
      Group2RoundTrip(d[0], d[1]);
    } else {
      RoundTrip(d[3..]);
      DecodedLong(d[0], d[1], d[2], Encoded(d[3..]));
      FirstThree(d);
    }
  }

  // ----- int arithmetic -----

  predicate FitsInt(n: int) {
    -MAX_INT32 - 1 <= n <= MAX_INT32
  }

  /** The padding computed from the low bits of len % 3. */
  function PadOf(len: nat): (pad: int)
    ensures (len + pad) % 3 == 0 && 0 <= pad <= 2
  {
    var m := len % 3;
    m % 2 * 2 + m / 2
  }

  /** Every int the two functions compute fits exactly up to that length. */
  lemma FitsIff(len: nat)
    ensures FitsInt(4 * (len + PadOf(len))) && FitsInt(3 * (4 * (len + PadOf(len)) / 3)) <==> len <= MAX_LEN
  {
  }

  lemma ExactSize(len: nat)
    ensures 4 * (len + PadOf(len)) / 3 == 4 * ((len + 2) / 3)
    ensures len <= MAX_LEN ==> FitsInt(4 * (len + PadOf(len)))
  {
  }

  // ----- The loops -----

  lemma EncodedGroup(d: seq<byte>, k: nat)
    requires k + 3 <= |d|
    ensures Encoded(d[k..]) == Group3(d[k], d[k + 1], d[k + 2]) + Encoded(d[k + 3..])
    ensures |Encoded(d[k..])| == 4 + |Encoded(d[k + 3..])|
  {
    assert d[k..][3..] == d[k + 3..];
  }

  lemma EncodedTail(d: seq<byte>, k: nat)
    requires k <= |d| < k + 3 && k % 3 == 0
    ensures PadOf(|d|) == (if |d| == k then 0 else if |d| == k + 1 then 2 else 1)
    ensures Encoded(d[k..]) == if |d| == k then "" else if |d| == k + 1 then Group1(d[k]) else Group2(d[k], d[k + 1])
  {
  }

  /** The buffer holds the encoding and a terminating zero, and nothing else. */
  method Base64(bin: array<byte>, len: nat) returns (res: array<char>, flen: int)
    requires len <= bin.Length && len <= MAX_LEN
    ensures fresh(res) && flen == |Encoded(bin[..len])| && res.Length == flen + 1
    ensures res[..flen] == Encoded(bin[..len]) && res[flen] == 0 as char
    ensures FitsInt(4 * (len + PadOf(len)))
  {
    ghost var d, goal := bin[..len], Encoded(bin[..len]);
    var modulusLen := len % 3;
    var pad := modulusLen % 2 * 2 + modulusLen / 2;
    flen := 4 * (len + pad) / 3;
    EncodedLength(d);
    ExactSize(len);
    res := new char[flen + 1](i => 0 as char);
    var rc, byteNo := EncodeGroups(bin, len, res);
    rc := EncodeTail(bin, len, pad, res, rc, byteNo);
    res[rc] := 0 as char;
    assert res[..rc] == goal;
  }

  /** One or two bytes left over. */
  method EncodeTail(bin: array<byte>, len: nat, pad: int, res: array<char>, rc: nat, byteNo: nat) returns (end: nat)
    requires byteNo <= len <= bin.Length && len < byteNo + 3 && byteNo % 3 == 0 && pad == PadOf(len)
    requires rc + |Encoded(bin[..len][byteNo..])| < res.Length
    modifies res
    ensures end == rc + |Encoded(bin[..len][byteNo..])|
    ensures res[..end] == old(res[..rc]) + Encoded(bin[..len][byteNo..])
  {
    EncodedTail(bin[..len], byteNo);
    end := rc;
    if pad == 2 {
      Store(res, rc, Group1(bin[byteNo]));
      end := rc + 4;
    } else if pad == 1 {
      Store(res, rc, Group2(bin[byteNo], bin[byteNo + 1]));
      end := rc + 4;
    } else {
      assert res[..rc] + "" == res[..rc];
    }
  }

  /** The loop over whole groups. */
  method EncodeGroups(bin: array<byte>, len: nat, res: array<char>) returns (rc: nat, byteNo: nat)
    requires len <= bin.Length && res.Length > |Encoded(bin[..len])|
    modifies res
    ensures byteNo <= len < byteNo + 3 && byteNo % 3 == 0
    ensures rc + |Encoded(bin[..len][byteNo..])| == |Encoded(bin[..len])|
    ensures res[..rc] + Encoded(bin[..len][byteNo..]) == Encoded(bin[..len])
  {
    ghost var d, goal := bin[..len], Encoded(bin[..len]);
    rc := 0;
    byteNo := 0;
    assert d[0..] == d;
    while byteNo <= len - 3
      invariant byteNo <= len && byteNo % 3 == 0
      invariant rc + |Encoded(d[byteNo..])| == |goal|
      invariant res[..rc] + Encoded(d[byteNo..]) == goal
      decreases len - byteNo
    {
      ghost var before := res[..rc];
      EncodedGroup(d, byteNo);
      var group := Group3(bin[byteNo], bin[byteNo + 1], bin[byteNo + 2]);
      Store(res, rc, group);
      Assoc(before, group, Encoded(d[byteNo + 3..]));
      rc := rc + 4;
      byteNo := byteNo + 3;
    }
  }

  /** res[rc++] = ..., four times. */
  method Store(res: array<char>, rc: nat, group: string)
    requires |group| == 4 && rc + 4 <= res.Length
    modifies res
    ensures res[..rc + 4] == old(res[..rc]) + group
  {
    res[rc] := group[0];
    res[rc + 1] := group[1];
    res[rc + 2] := group[2];
    res[rc + 3] := group[3];
  }

  // ----- Decoding texts of any length -----

  /** How often the loop over groups goes round. */
  function Rounds(len: nat, pad: nat): nat
    requires pad <= len
  {
    (len - pad) / 4
  }

  /** The size the decoder announces, and allocates. */
  function Announced(len: nat, pad: nat): int {
    3 * len / 4 - pad
  }

  /** How many bytes it writes. */
  function Written(len: nat, pad: nat): nat
    requires pad <= 2 <= len
  {
    3 * Rounds(len, pad) + if pad == 0 then 0 else 3 - pad
  }

  /** How many characters it looks at. */
  function Looked(len: nat, pad: nat): nat
    requires pad <= 2 <= len
  {
    4 * Rounds(len, pad) + if pad == 0 then 0 else 4 - pad
  }

  /** Padding at the end of a text whose length does not allow for it. */
  predicate Overruns(len: nat, pad: nat) {
    pad != 0 && len % 4 != 0 && !(len % 4 == 1 && pad == 2)
  }

  /** Exactly when the decoder fills its buffer, and exactly when it writes behind it; only then may it
      look behind the text, and only for two characters of padding is the size negative. */
  lemma WritesAsAnnouncedIff(len: nat, pad: nat)
    requires pad <= 2 <= len
    ensures Written(len, pad) == Announced(len, pad) <==> len % 4 == 0 || (len % 4 == 1 && pad != 1)
    ensures Written(len, pad) > Announced(len, pad) <==> Overruns(len, pad)
    ensures !Overruns(len, pad) ==> Looked(len, pad) <= len
    ensures Announced(len, pad) < 0 <==> len == 2 && pad == 2
  {
    var q, r := len / 4, len % 4;
    assert len == 4 * q + r && 3 * len / 4 == 3 * q + 3 * r / 4;
    assert Rounds(len, pad) == if r >= pad then q else q - 1;
  }

  /** Six characters, the last one padding: three bytes announced, five written. */
  lemma OverrunExists()
    ensures var s := "AAAAA="; Padding(s) == 1 && Announced(|s|, 1) == 3 && Written(|s|, 1) == 5
  {
  }

  /** The first `rounds` groups of a text. */
  function Groups(s: string, rounds: nat): (d: seq<byte>)
    requires 4 * rounds <= |s|
    ensures |d| == 3 * rounds
  {
    if rounds == 0 then [] else Groups(s, rounds - 1) + GroupBytes(s[4 * rounds - 4..], 3)
  }

  /** What the decoder writes, for a text of `len` characters with whatever lies behind it. */
  function Unpacked(s: string, len: nat, pad: nat): (d: seq<byte>)
    requires pad <= 2 <= len && Looked(len, pad) <= |s|
    ensures |d| == Written(len, pad)
  {
    Groups(s, Rounds(len, pad)) + if pad == 0 then [] else GroupBytes(s[4 * Rounds(len, pad)..], 3 - pad)
  }

  lemma SameGroup(s: string, len: nat, at: nat, count: int)
    requires 1 <= count <= 3 && at + count < len <= |s|
    ensures GroupBytes(s[at..], count) == GroupBytes(s[..len][at..], count)
  {
    assert forall i | 0 <= i <= count :: s[at..][i] == s[..len][at..][i];
  }

  /** The decoding of the last n - k of n groups. */
  function DecodedFrom(s: string, n: nat, k: nat): seq<byte>
    requires k <= n && 4 * n <= |s|
  {
    assert |s[..4 * n][4 * k..]| == 4 * (n - k);
    Decoded(s[..4 * n][4 * k..])
  }

  lemma {:induction false} GroupsAreDecoded(s: string, n: nat, rounds: nat)
    requires 4 <= 4 * n <= |s| && rounds <= n && (rounds == n ==> Padding(s[..4 * n]) == 0)
    ensures DecodedFrom(s, n, 0) == Groups(s, rounds) + DecodedFrom(s, n, rounds)
    decreases rounds
  {
    if rounds == 0 {
      assert Groups(s, 0) + DecodedFrom(s, n, 0) == DecodedFrom(s, n, 0);
    } else {
      var k := rounds - 1;
      GroupsAreDecoded(s, n, k);
      OneMoreGroup(s, n, k);
      Assoc(Groups(s, k), GroupBytes(s[4 * k..], 3), DecodedFrom(s, n, rounds));
    }
  }

  lemma OneMoreGroup(s: string, n: nat, k: nat)
    requires k < n && 4 * n <= |s| && (k + 1 == n ==> Padding(s[..4 * n]) == 0)
    ensures DecodedFrom(s, n, k) == GroupBytes(s[4 * k..], 3) + DecodedFrom(s, n, k + 1)
    ensures Groups(s, k + 1) == Groups(s, k) + GroupBytes(s[4 * k..], 3)
  {
    GroupOf(s[..4 * n], 4 * k, Padding(s[..4 * n]));
    SameGroup(s, 4 * n, 4 * k, 3);
  }

  /** For whole groups that is the decoding, and as long as announced. */
  lemma UnpackedIsDecoded(s: string, len: nat)
    requires 4 <= len <= |s| && len % 4 == 0
    ensures Looked(len, Padding(s[..len])) <= len && Unpacked(s, len, Padding(s[..len])) == Decoded(s[..len])
    ensures |Decoded(s[..len])| == Announced(len, Padding(s[..len]))
  {
    var text, pad := s[..len], Padding(s[..len]);
    var rounds := Rounds(len, pad);
    assert rounds == if pad == 0 then len / 4 else len / 4 - 1;
    WritesAsAnnouncedIff(len, pad);
    GroupsAreDecoded(s, len / 4, rounds);
    assert text[0..] == text;
    if pad == 0 {
      assert text[len..] == "";
    } else {
      LastGroup(text, len - 4);
      SameGroup(s, len, len - 4, 3 - pad);
    }
  }

  /** Decodes into the memory at the address the buffer was allocated at: exactly so many bytes are
      written there, whatever the length, and what follows them is not touched. */
  method UnpackInto(ascii: array<char>, len: nat, pad: nat, bin: array<byte>) returns (cb: nat)
    requires 2 <= len <= ascii.Length && pad == Padding(ascii[..len])
    requires Looked(len, pad) <= ascii.Length && Written(len, pad) <= bin.Length
    modifies bin
    ensures cb == Written(len, pad) && bin[..cb] == Unpacked(ascii[..], len, pad)
    ensures forall i | cb <= i < bin.Length :: bin[i] == old(bin[i])
  {
    var charNo;
    cb, charNo := UnpackGroups(ascii, len, pad, bin);
    if pad == 1 {
      StoreGroup(ascii, charNo, 2, bin, cb);
      cb := cb + 2;
    } else if pad == 2 {
      StoreGroup(ascii, charNo, 1, bin, cb);
      cb := cb + 1;
    } else {
      assert bin[..cb] + [] == bin[..cb];
    }
  }

  lemma RoundsIff(len: nat, pad: nat, k: nat)
    requires pad <= len
    ensures 4 * k <= len - 4 - pad <==> k < Rounds(len, pad)
  {
  }

  method UnpackGroup(ascii: array<char>, charNo: nat, bin: array<byte>, cb: nat, ghost k: nat)
    requires charNo == 4 * k && cb == 3 * k && charNo + 4 <= ascii.Length && cb + 3 <= bin.Length
    requires bin[..cb] == Groups(ascii[..], k)
    modifies bin
    ensures bin[..cb + 3] == Groups(ascii[..], k + 1)
    ensures forall i | cb + 3 <= i < bin.Length :: bin[i] == old(bin[i])
  {
    StoreGroup(ascii, charNo, 3, bin, cb);
  }

  /** The loop over groups. */
  method UnpackGroups(ascii: array<char>, len: nat, pad: nat, bin: array<byte>) returns (cb: nat, charNo: nat)
    requires pad <= 2 <= len <= ascii.Length && Written(len, pad) <= bin.Length
    modifies bin
    ensures charNo == 4 * Rounds(len, pad) && cb == 3 * Rounds(len, pad)
    ensures bin[..cb] == Groups(ascii[..], Rounds(len, pad))
    ensures forall i | cb <= i < bin.Length :: bin[i] == old(bin[i])
  {
    ghost var s, k, rounds := ascii[..], 0, Rounds(len, pad);
    cb := 0;
    charNo := 0;
    RoundsIff(len, pad, 0);
    while charNo <= len - 4 - pad
      invariant charNo == 4 * k && cb == 3 * k && k <= rounds
      invariant 4 * k <= len - 4 - pad <==> k < rounds
      invariant bin[..cb] == Groups(s, k)
      invariant forall i | cb <= i < bin.Length :: bin[i] == old(bin[i])
      decreases len - charNo
    {
      UnpackGroup(ascii, charNo, bin, cb, k);
      k := k + 1;
      RoundsIff(len, pad, k);
      cb := cb + 3;
      charNo := charNo + 4;
    }
  }

  /** The first `count` bytes of the group at `charNo`, stored at bin[cb++]. */
  method StoreGroup(ascii: array<char>, charNo: nat, count: int, bin: array<byte>, cb: nat)
    requires 1 <= count <= 3 && charNo + count < ascii.Length && cb + count <= bin.Length
    modifies bin
    ensures bin[..cb + count] == old(bin[..cb]) + GroupBytes(ascii[..][charNo..], count)
    ensures forall i | cb + count <= i < bin.Length :: bin[i] == old(bin[i])
  {
    var a, b := Undigit(ascii[charNo]), Undigit(ascii[charNo + 1]);
    bin[cb] := First(a, b);
    if count > 1 {
      var c := Undigit(ascii[charNo + 2]);
      bin[cb + 1] := Second(b, c);
      if count > 2 {
        var d := Undigit(ascii[charNo + 3]);
        bin[cb + 2] := Third(c, d);
      }
    }
  }

  /** For every text whose decoding fits the buffer allocated for it. A buffer is filled exactly when the
      text is made of whole groups, or of whole groups and one character without single padding; what
      is not filled keeps what it held. */
  method Unbase64(ascii: array<char>, len: nat) returns (bin: array?<byte>, flen: int)
    requires len <= ascii.Length && FitsInt(3 * len) && (len >= 2 ==> !Overruns(len, Padding(ascii[..len])))
    ensures len < 2 ==> bin == null && flen == 0
    ensures len >= 2 ==>
              var pad := Padding(ascii[..len]);
              && flen == Announced(len, pad) && bin != null && fresh(bin) && bin.Length == flen
              && Looked(len, pad) <= len && Written(len, pad) <= flen
              && bin[..Written(len, pad)] == Unpacked(ascii[..], len, pad)
    ensures len >= 2 && len % 4 == 0 ==> bin != null && bin[..] == Decoded(ascii[..len])
  {
    if len < 2 {
      return null, 0;
    }
    ghost var s := ascii[..len];
    var pad := 0;
    if ascii[len - 1] == PAD {
      pad := pad + 1;
    }
    if ascii[len - 2] == PAD {
      pad := pad + 1;
    }
    assert pad == Padding(s);
    flen := 3 * len / 4 - pad;
    WritesAsAnnouncedIff(len, pad);
    bin := new byte[flen](i => 0);
    var cb := UnpackInto(ascii, len, pad, bin);
    if len % 4 == 0 {
      UnpackedIsDecoded(ascii[..], len);
      assert bin[..flen] == bin[..];
    }
  }

  /** A group that is not the padded last one. */
  lemma GroupOf(s: string, charNo: nat, pad: int)
    requires |s| % 4 == 0 && charNo % 4 == 0 && |s| >= 4 && pad == Padding(s) && charNo <= |s| - 4 - pad
    ensures charNo + 4 <= |s| && (pad > 0 ==> charNo + 8 <= |s|)
    ensures (charNo + 4) % 4 == 0 && |s[charNo..]| % 4 == 0 && |s[charNo + 4..]| % 4 == 0
    ensures Decoded(s[charNo..]) == GroupBytes(s[charNo..], 3) + Decoded(s[charNo + 4..])
    ensures |Decoded(s[charNo..])| == 3 + |Decoded(s[charNo + 4..])|
  {
    var t := s[charNo..];
    assert |t| % 4 == 0 && t[4..] == s[charNo + 4..];
    assert Padding(t) == pad;
    if |t| == 4 {
      assert GroupBytes(t, 3) + [] == GroupBytes(t, 3);
    }
  }

  lemma LastGroup(s: string, charNo: nat)
    requires |s| % 4 == 0 && |s| >= 4 && charNo == |s| - 4
    ensures Decoded(s[charNo..]) == GroupBytes(s[charNo..], 3 - Padding(s))
  {
    assert Padding(s[charNo..]) == Padding(s);
  }
}
