/** How printed values look: the escapes of string literals and the line breaks and gaps of both layouts. */
module JsonLayout {
  import opened Common
  import opened Json
  import JsonRoundTrip

  /** Two characters for the eight that have a name, six for the other control characters, and the byte
      itself for every other; which byte is meant is what reading it back gives. */
  lemma EscapeForm(c: char)
    ensures var text := EscapeChar(c);
            if c as int in {0x22, 0x5c, 0x2f, 0x08, 0x0c, 0x0a, 0x0d, 0x09} then |text| == 2 && text[0] == '\\'
            else if c as int < 0x20 || c as int == 0x7f then
              && |text| == 6 && text[..4] == "\\u00"
              && text[4] in "01234567" && text[5] in "0123456789abcdef"
            else text == [c]
    ensures forall rest, acc :: StringTail(EscapeChar(c) + rest, acc) == StringTail(rest, acc + [c])
  {
    forall rest, acc ensures StringTail(EscapeChar(c) + rest, acc) == StringTail(rest, acc + [c]) {
      JsonRoundTrip.EscapeCharReads(c, rest, acc);
    }
    Named(c);
    if c as int < 0x20 || c as int == 0x7f {
      HexDigitIs(c as int / 16);
      HexDigitIs(c as int % 16);
    }
  }

  lemma Named(c: char)
    ensures c == '"' <==> c as int == 0x22
    ensures c == '\\' <==> c as int == 0x5c
    ensures c == '/' <==> c as int == 0x2f
  {
    assert '"' as int == 0x22 && '\\' as int == 0x5c && '/' as int == 0x2f;
  }

  const HEX := "0123456789abcdef"

  lemma HexDigitIs(n: nat)
    requires n < 16
    ensures HexDigit(n) == HEX[n]
    ensures n < 8 ==> HexDigit(n) in "01234567"
  {
    if n < 8 {
      assert "01234567"[n] == HEX[n];
    }
  }

  /** A line break is a line feed and two spaces for every level. */
  lemma BreakIs(indent: nat)
    ensures var text := Break(indent);
            && |text| == 1 + 2 * indent && text[0] as int == 0x0a
            && forall i | 1 <= i < |text| :: text[i] as int == 0x20
  {
    SpacesAre(2 * indent);
    assert '\n' as int == 0x0a;
  }

  lemma {:induction false} SpacesAre(n: nat)
    ensures |Spaces(n)| == n && forall i | 0 <= i < n :: Spaces(n)[i] as int == 0x20
  {
    if n > 0 {
      SpacesAre(n - 1);
      assert ' ' as int == 0x20;
    }
  }

  /** Texts with a separator between neighbours. */
  function Joined(texts: seq<string>, sep: string): string {
    if texts == [] then ""
    else if |texts| == 1 then texts[0]
    else texts[0] + (sep + Joined(texts[1..], sep))
  }

  ghost function ItemTexts(v: Value, indent: int): (texts: seq<string>)
    requires v.Arr? && indent >= -1
  {
    seq(|v.items|, i requires 0 <= i < |v.items| => Body(v.items[i], indent))
  }

  ghost function MemberTexts(v: Value, indent: int): (texts: seq<string>)
    requires v.Obj? && indent >= -1
  {
    seq(|v.members|, i requires 0 <= i < |v.members| => MemberText(v.members[i], indent))
  }

  lemma JoinedStep(texts: seq<string>, k: nat, sep: string)
    requires k < |texts|
    ensures Joined(texts[k..], sep)
            == if k + 1 == |texts| then texts[k] else texts[k] + (sep + Joined(texts[k + 1..], sep))
  {
    assert texts[k..][1..] == texts[k + 1..];
  }

  lemma Commas(first: string, gap: string, text: string, more: string, joined: string)
    requires more == ("," + gap) + joined
    ensures first + (gap + (text + more)) == (first + gap) + (text + (("," + gap) + joined))
  {
  }

  lemma {:induction false} ItemsAreJoined(v: Value, k: nat, indent: int)
    requires v.Arr? && k < |v.items| && indent >= -1
    ensures Items(v, k, indent)
            == ((if k == 0 then "" else ",") + Break(indent)) + Joined(ItemTexts(v, indent)[k..], "," + Break(indent))
    decreases |v.items| - k
  {
    var first, gap, texts := if k == 0 then "" else ",", Break(indent), ItemTexts(v, indent);
    JoinedStep(texts, k, "," + gap);
    if k + 1 == |v.items| {
      assert Items(v, k + 1, indent) == "" && texts[k] + "" == texts[k];
      Assoc(first, gap, texts[k]);
    } else {
      ItemsAreJoined(v, k + 1, indent);
      Commas(first, gap, texts[k], Items(v, k + 1, indent), Joined(texts[k + 1..], "," + gap));
    }
  }

  lemma {:induction false} MembersAreJoined(v: Value, k: nat, indent: int)
    requires v.Obj? && k < |v.members| && indent >= -1
    ensures Members(v, k, indent)
            == ((if k == 0 then "" else ",") + Break(indent)) + Joined(MemberTexts(v, indent)[k..], "," + Break(indent))
    decreases |v.members| - k
  {
    var first, gap, texts := if k == 0 then "" else ",", Break(indent), MemberTexts(v, indent);
    JoinedStep(texts, k, "," + gap);
    if k + 1 == |v.members| {
      assert Members(v, k + 1, indent) == "" && texts[k] + "" == texts[k];
      Assoc(first, gap, texts[k]);
    } else {
      MembersAreJoined(v, k + 1, indent);
      Commas(first, gap, texts[k], Members(v, k + 1, indent), Joined(texts[k + 1..], "," + gap));
    }
  }

  lemma Whole(texts: seq<string>)
    ensures texts[0..] == texts
  {
  }

  lemma NoGaps(items: string, close: string)
    ensures "" + items == items && items + ("" + close) == items + close
  {
  }

  /** Compact arrays and objects: commas, and no gaps. */
  lemma CompactArray(v: Value)
    requires v.Arr?
    ensures Body(v, -1) == "[" + (Joined(ItemTexts(v, -1), ",") + "]")
  {
    NoGaps(Items(v, 0, -1), "]");
    assert "," + Break(-1) == "," && "" + Break(-1) == "";
    if v.items == [] {
      assert Items(v, 0, -1) == "" && ItemTexts(v, -1) == [];
    } else {
      ItemsAreJoined(v, 0, -1);
      Whole(ItemTexts(v, -1));
      NoGaps(Joined(ItemTexts(v, -1), ","), "]");
    }
  }

  lemma CompactObject(v: Value)
    requires v.Obj?
    ensures Body(v, -1) == "{" + (Joined(MemberTexts(v, -1), ",") + "}")
  {
    NoGaps(Members(v, 0, -1), "}");
    assert "," + Break(-1) == "," && "" + Break(-1) == "";
    if v.members == [] {
      assert Members(v, 0, -1) == "" && MemberTexts(v, -1) == [];
    } else {
      MembersAreJoined(v, 0, -1);
      Whole(MemberTexts(v, -1));
      NoGaps(Joined(MemberTexts(v, -1), ","), "}");
    }
  }

  /** A member is its key, a colon, a space only in pretty text, and its value; and a whole pretty document
      ends with a line feed. */
  lemma MemberForm(m: Member, indent: nat)
    ensures MemberText(m, -1) == Quoted(m.key) + (":" + Body(m.value, -1))
    ensures MemberText(m, indent) == Quoted(m.key) + (":" + (" " + Body(m.value, indent)))
    ensures Serialized(m.value, -1) == Body(m.value, -1) && Serialized(m.value, 0) == Body(m.value, 0) + "\n"
  {
    NoGaps(Body(m.value, -1), "");
    assert Body(m.value, -1) + "" == Body(m.value, -1);
  }

  /** Pretty arrays: every item on a line of its own, one level deeper, and the closing bracket on its own;
      an empty array stays on its line. */
  lemma PrettyArray(v: Value, indent: nat)
    requires v.Arr?
    ensures v.items == [] ==> Body(v, indent) == "[]"
    ensures v.items != [] ==>
              Body(v, indent)
              == "[" + ((Break(indent + 1) + Joined(ItemTexts(v, indent + 1), "," + Break(indent + 1)))
                        + (Break(indent) + "]"))
  {
    if v.items != [] {
      ItemsAreJoined(v, 0, indent + 1);
      Whole(ItemTexts(v, indent + 1));
      NoGaps(Break(indent + 1), "");
    }
  }

  lemma PrettyObject(v: Value, indent: nat)
    requires v.Obj?
    ensures v.members == [] ==> Body(v, indent) == "{}"
    ensures v.members != [] ==>
              Body(v, indent)
              == "{" + ((Break(indent + 1) + Joined(MemberTexts(v, indent + 1), "," + Break(indent + 1)))
                        + (Break(indent) + "}"))
  {
    if v.members != [] {
      MembersAreJoined(v, 0, indent + 1);
      Whole(MemberTexts(v, indent + 1));
      NoGaps(Break(indent + 1), "");
    }
  }

  /** Members stand in the lexicographic order of their keys. */
  lemma {:induction false} LessIff(a: string, b: string)
    ensures Less(a, b) <==>
              exists i | 0 <= i <= |a| && i < |b| :: a[..i] == b[..i] && (i == |a| || a[i] < b[i])
  {
    if b != "" && a != "" {
      LessIff(a[1..], b[1..]);
      if a[0] < b[0] {
        assert a[..0] == b[..0];
      } else if a[0] == b[0] && Less(a[1..], b[1..]) {
        var i :| 0 <= i <= |a[1..]| && i < |b[1..]| && a[1..][..i] == b[1..][..i]
                 && (i == |a[1..]| || a[1..][i] < b[1..][i]);
        ConsPrefix(a, b, i);
      } else if i :| 0 <= i <= |a| && i < |b| && a[..i] == b[..i] && (i == |a| || a[i] < b[i]) {
        if i > 0 {
          TailPrefix(a, b, i);
        }
      }
    } else if b != "" {
      assert a[..0] == b[..0];
    }
  }

  lemma ConsPrefix(a: string, b: string, i: nat)
    requires a != "" && b != "" && a[0] == b[0] && i < |a| && i < |b| && a[1..][..i] == b[1..][..i]
    ensures a[..i + 1] == b[..i + 1]
    ensures i + 1 < |a| && i + 1 < |b| ==> a[i + 1] == a[1..][i] && b[i + 1] == b[1..][i]
  {
    assert a[..i + 1] == [a[0]] + a[1..][..i] && b[..i + 1] == [b[0]] + b[1..][..i];
  }

  lemma TailPrefix(a: string, b: string, i: nat)
    requires 0 < i <= |a| && i < |b| && a[..i] == b[..i]
    ensures a[0] == b[0] && a[1..][..i - 1] == b[1..][..i - 1]
    ensures i < |a| ==> a[1..][i - 1] == a[i] && b[1..][i - 1] == b[i]
  {
    assert a[..i][0] == b[..i][0];
    assert a[..i][1..] == a[1..][..i - 1] && b[..i][1..] == b[1..][..i - 1];
  }
}
