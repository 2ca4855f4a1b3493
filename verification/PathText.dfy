/** Paths as text: how the discovery client builds them from parts and takes them apart again. */
module PathText {
  import opened Common

  const DELIM := '/'

  /** The first delimiter at or after the start of a text; the length when there is none. */
  function IndexOf(s: string): (n: nat)
    ensures n <= |s| && (n < |s| ==> s[n] == DELIM)
    ensures forall i | 0 <= i < n :: s[i] != DELIM
  {
    if s == "" then 0 else if s[0] == DELIM then 0 else 1 + IndexOf(s[1..])
  }

  /** The pieces between delimiters; empty ones are dropped unless asked for, and a last empty one
      always is. */
  function Split(s: string, keepEmpty: bool): seq<string>
    decreases |s|
  {
    var n := IndexOf(s);
    if n == |s| then (if s == "" then [] else [s])
    else (if keepEmpty || n != 0 then [s[..n]] else []) + Split(s[n + 1..], keepEmpty)
  }

  /** find_first_of from a position on. */
  function NextDelim(s: string, from: nat): (n: nat)
    requires from <= |s|
    ensures from <= n <= |s|
  {
    from + IndexOf(s[from..])
  }

  /** The pieces found before `prev`. */
  ghost predicate Found(paths: seq<string>, s: string, prev: nat, keepEmpty: bool)
    requires prev <= |s|
  {
    paths + Split(s[prev..], keepEmpty) == Split(s, keepEmpty)
  }

  method SplitPath(absPath: string, keepEmpty: bool) returns (paths: seq<string>)
    ensures paths == Split(absPath, keepEmpty)
  {
    paths := [];
    var prev := 0;
    var next := NextDelim(absPath, 0);
    FoundNothing(absPath, keepEmpty);
    while next != |absPath|
      invariant prev <= next <= |absPath| && next == NextDelim(absPath, prev)
      invariant Found(paths, absPath, prev, keepEmpty)
      decreases |absPath| - prev
    {
      if keepEmpty || next - prev != 0 {
        FoundPiece(paths, absPath, prev, keepEmpty);
        paths := paths + [absPath[prev..next]];
      } else {
        FoundEmpty(paths, absPath, prev);
      }
      prev := next + 1;
      next := NextDelim(absPath, prev);
    }
    FoundLast(paths, absPath, prev, keepEmpty);
    if prev < |absPath| {
      paths := paths + [absPath[prev..]];
    }
  }

  lemma FoundNothing(s: string, keepEmpty: bool)
    ensures Found([], s, 0, keepEmpty)
  {
    assert s[0..] == s && [] + Split(s, keepEmpty) == Split(s, keepEmpty);
  }

  lemma FoundPiece(paths: seq<string>, s: string, prev: nat, keepEmpty: bool)
    requires prev <= |s| && Found(paths, s, prev, keepEmpty)
    requires var next := NextDelim(s, prev); next != |s| && (keepEmpty || next != prev)
    ensures var next := NextDelim(s, prev); Found(paths + [s[prev..next]], s, next + 1, keepEmpty)
  {
    var next := NextDelim(s, prev);
    SplitUnfolds(s[prev..], next - prev, keepEmpty);
    PartsOfRest(s, prev, next);
    Assoc(paths, [s[prev..next]], Split(s[next + 1..], keepEmpty));
  }

  lemma SplitUnfolds(s: string, n: nat, keepEmpty: bool)
    requires n == IndexOf(s) && n != |s| && (keepEmpty || n != 0)
    ensures Split(s, keepEmpty) == [s[..n]] + Split(s[n + 1..], keepEmpty)
  {
  }

  lemma PartsOfRest(s: string, prev: nat, next: nat)
    requires prev <= next < |s|
    ensures s[prev..][..next - prev] == s[prev..next] && s[prev..][next - prev + 1..] == s[next + 1..]
  {
  }

  lemma FoundEmpty(paths: seq<string>, s: string, prev: nat)
    requires prev < |s| && Found(paths, s, prev, false) && NextDelim(s, prev) == prev
    ensures Found(paths, s, prev + 1, false)
  {
    assert s[prev..][1..] == s[prev + 1..];
    assert [] + Split(s[prev + 1..], false) == Split(s[prev + 1..], false);
  }

  lemma FoundLast(paths: seq<string>, s: string, prev: nat, keepEmpty: bool)
    requires prev <= |s| && Found(paths, s, prev, keepEmpty) && NextDelim(s, prev) == |s|
    ensures Split(s, keepEmpty) == if prev < |s| then paths + [s[prev..]] else paths
  {
    assert paths + [] == paths;
  }

  /** Pieces with a delimiter between neighbours. */
  function Rejoined(pieces: seq<string>): string {
    if pieces == [] then ""
    else if |pieces| == 1 then pieces[0]
    else pieces[0] + ([DELIM] + Rejoined(pieces[1..]))
  }

  lemma SplitFirstPiece(s: string)
    requires IndexOf(s) < |s|
    ensures var n := IndexOf(s);
            && Split(s, true) == [s[..n]] + Split(s[n + 1..], true) && DELIM !in s[..n]
            && s == s[..n] + ([DELIM] + s[n + 1..])
  {
    var n := IndexOf(s);
    SplitUnfolds(s, n, true);
    PieceAround(s, n);
    assert forall i | 0 <= i < n :: s[..n][i] != DELIM;
  }

  lemma PieceAround(s: string, n: nat)
    requires n < |s|
    ensures s == s[..n] + ([s[n]] + s[n + 1..])
  {
  }

  /** A delimiter at the end leaves no piece. */
  function EndMark(s: string): string {
    if s != "" && s[|s| - 1] == DELIM then [DELIM] else ""
  }

  lemma RejoinedStep(first: string, pieces: seq<string>, end: string)
    requires pieces != []
    ensures Rejoined([first] + pieces) + end == first + ([DELIM] + (Rejoined(pieces) + end))
  {
    assert ([first] + pieces)[1..] == pieces;
  }

  lemma LastPiece(s: string)
    requires IndexOf(s) == |s|
    ensures s == Rejoined(Split(s, true)) + EndMark(s) && (Split(s, true) == [] <==> s == "")
    ensures forall piece | piece in Split(s, true) :: DELIM !in piece
  {
    assert DELIM !in s;
    assert s != "" ==> Split(s, true) == [s];
    assert s + "" == s;
  }

  lemma EndOfRest(first: string, rest: string)
    ensures EndMark(first + ([DELIM] + rest)) == if rest == "" then [DELIM] else EndMark(rest)
  {
    var s := first + ([DELIM] + rest);
    assert s[|s| - 1] == if rest == "" then DELIM else rest[|rest| - 1];
  }

  /** With the empty pieces kept nothing is lost but a delimiter at the end. */
  lemma {:induction false} SplitRejoins(s: string)
    ensures s == Rejoined(Split(s, true)) + EndMark(s) && (Split(s, true) == [] <==> s == "")
    ensures forall piece | piece in Split(s, true) :: DELIM !in piece
    decreases |s|
  {
    var n := IndexOf(s);
    if n == |s| {
      LastPiece(s);
    } else {
      var first, rest := s[..n], s[n + 1..];
      SplitFirstPiece(s);
      SplitRejoins(rest);
      EndOfRest(first, rest);
      if rest == "" {
        assert Split(s, true) == [first];
      } else {
        RejoinedStep(first, Split(rest, true), EndMark(rest));
      }
    }
  }

  function NonEmpty(pieces: seq<string>): seq<string> {
    if pieces == [] then [] else (if pieces[0] == "" then [] else [pieces[0]]) + NonEmpty(pieces[1..])
  }

  /** Otherwise exactly the empty pieces are missing. */
  lemma {:induction false} SplitDropsEmpty(s: string)
    ensures Split(s, false) == NonEmpty(Split(s, true))
    decreases |s|
  {
    var n := IndexOf(s);
    if n < |s| {
      SplitDropsEmpty(s[n + 1..]);
      assert Split(s, true)[1..] == Split(s[n + 1..], true);
    } else if s != "" {
      assert [s][1..] == [] && NonEmpty([s]) == [s] + NonEmpty([]) == [s];
    }
  }

  // ----- Building -----

  /** A part may contain a delimiter only as its first character. */
  predicate PartAllowed(part: string) {
    part == "" || IndexOf(part[1..]) == |part[1..]|
  }

  /** buildZKPath: none stands for the exception. */
  function Built(parts: seq<string>): Option<string> {
    if parts == [] then Some("")
    else if !PartAllowed(parts[0]) then None
    else
      match Built(parts[1..])
      case None => None
      case Some(rest) => Some([DELIM] + (parts[0] + rest))
  }

  /** makeZKPath: a doubled delimiter at the start is reduced to one. */
  function Made(parts: seq<string>): Option<string> {
    match Built(parts)
    case None => None
    case Some(path) => Some(if |path| >= 2 && path[0] == DELIM && path[1] == DELIM then path[1..] else path)
  }

  predicate PlainPart(part: string) {
    part != "" && IndexOf(part) == |part|
  }

  ghost predicate Plain(parts: seq<string>) {
    forall i | 0 <= i < |parts| :: PlainPart(parts[i])
  }

  /** The path of plain parts. */
  function Joined(parts: seq<string>): string {
    if parts == [] then "" else [DELIM] + (parts[0] + Joined(parts[1..]))
  }

  lemma {:induction false} PlainIsBuilt(parts: seq<string>)
    requires Plain(parts)
    ensures Built(parts) == Some(Joined(parts))
  {
    if parts != [] {
      var part := parts[0];
      forall i | 0 <= i < |part[1..]| ensures part[1..][i] != DELIM {
        assert part[1..][i] == part[i + 1];
      }
      PlainIsBuilt(parts[1..]);
    }
  }

  /** Splitting gives plain parts, whatever the text. */
  lemma {:induction false} SplitIsPlain(s: string)
    ensures Plain(Split(s, false))
    decreases |s|
  {
    var n := IndexOf(s);
    if n < |s| {
      SplitIsPlain(s[n + 1..]);
      PieceIsPlain(s, n);
    }
  }

  lemma PieceIsPlain(s: string, n: nat)
    requires n == IndexOf(s)
    ensures n > 0 ==> PlainPart(s[..n])
  {
    assert forall i | 0 <= i < n :: s[..n][i] != DELIM;
  }

  lemma {:induction false} PlainIsMade(parts: seq<string>)
    requires Plain(parts)
    ensures Made(parts) == Some(Joined(parts))
  {
    PlainIsBuilt(parts);
    if parts != [] {
      assert parts[0][0] != DELIM;
      assert Joined(parts)[1] == parts[0][0];
    }
  }

  lemma {:induction false} IndexAfter(part: string, rest: string)
    requires IndexOf(part) == |part| && (rest != "" ==> rest[0] == DELIM)
    ensures IndexOf(part + rest) == |part|
  {
    forall i | 0 <= i < |part| ensures (part + rest)[i] != DELIM {
      assert (part + rest)[i] == part[i];
    }
    assert rest != "" ==> (part + rest)[|part|] == DELIM;
  }

  lemma FirstPart(part: string, rest: string, keepEmpty: bool)
    requires PlainPart(part) && (rest != "" ==> rest[0] == DELIM)
    ensures Split(part + rest, keepEmpty) == [part] + (if rest == "" then [] else Split(rest[1..], keepEmpty))
  {
    IndexAfter(part, rest);
    var s := part + rest;
    assert s[..|part|] == part;
    if rest == "" {
      assert s == part;
    } else {
      assert s[|part| + 1..] == rest[1..];
    }
  }

  lemma SplitDelim(rest: string, keepEmpty: bool)
    ensures Split([DELIM] + rest, keepEmpty) == (if keepEmpty then [""] else []) + Split(rest, keepEmpty)
  {
    var s := [DELIM] + rest;
    assert IndexOf(s) == 0 && s[1..] == rest && s[..0] == "";
  }

  lemma SplitPart(part: string, rest: string)
    requires PlainPart(part) && (rest != "" ==> rest[0] == DELIM)
    ensures Split([DELIM] + (part + rest), false) == [part] + Split(rest, false)
  {
    SplitDelim(part + rest, false);
    FirstPart(part, rest, false);
    if rest == "" {
      assert [part] + [] == [part];
    } else {
      assert [DELIM] + rest[1..] == rest;
      SplitDelim(rest[1..], false);
      assert [] + Split(rest[1..], false) == Split(rest[1..], false);
    }
    assert [] + Split(part + rest, false) == Split(part + rest, false);
  }

  /** Taking a built path apart gives its parts. */
  lemma {:induction false} SplitJoined(parts: seq<string>)
    requires Plain(parts)
    ensures Split(Joined(parts), false) == parts
  {
    if parts != [] {
      SplitPart(parts[0], Joined(parts[1..]));
      SplitJoined(parts[1..]);
      assert [parts[0]] + parts[1..] == parts;
    }
  }

  lemma {:induction false} JoinedGrows(parts: seq<string>, part: string)
    ensures Joined(parts + [part]) == Joined(parts) + ([DELIM] + part)
  {
    if parts == [] {
      assert [part][1..] == [] && part + "" == part;
      assert parts + [part] == [part];
    } else {
      assert (parts + [part])[0] == parts[0] && (parts + [part])[1..] == parts[1..] + [part];
      JoinedGrows(parts[1..], part);
      Assoc(parts[0], Joined(parts[1..]), [DELIM] + part);
      Assoc([DELIM], parts[0] + Joined(parts[1..]), [DELIM] + part);
    }
  }

  /** No empty piece inside: a path of plain parts never contains a doubled delimiter. */
  predicate Doubled(s: string, from: nat)
    decreases |s| - from
  {
    from + 1 < |s| && ((s[from] == DELIM && s[from + 1] == DELIM) || Doubled(s, from + 1))
  }

  lemma {:induction false} DoubledIff(s: string, from: nat)
    ensures Doubled(s, from) <==> exists i | from <= i < |s| - 1 :: s[i] == DELIM && s[i + 1] == DELIM
    decreases |s| - from
  {
    if from + 1 < |s| {
      DoubledIff(s, from + 1);
    }
  }

  lemma {:induction false} JoinedNotDoubled(parts: seq<string>, i: nat)
    requires Plain(parts) && i + 1 < |Joined(parts)|
    ensures !(Joined(parts)[i] == DELIM && Joined(parts)[i + 1] == DELIM)
    ensures Joined(parts)[|Joined(parts)| - 1] != DELIM
  {
    var part, rest := parts[0], Joined(parts[1..]);
    assert Joined(parts) == [DELIM] + (part + rest);
    if rest != "" {
      assert |rest| >= 2 by { assert parts[1..][0] != ""; }
      JoinedNotDoubled(parts[1..], if i > |part| && i + 1 < |Joined(parts)| then i - 1 - |part| else 0);
      assert Joined(parts)[|Joined(parts)| - 1] == rest[|rest| - 1];
    } else {
      assert Joined(parts)[|Joined(parts)| - 1] == part[|part| - 1];
    }
    if i == 0 {
      assert Joined(parts)[1] == part[0];
    } else if i <= |part| {
      assert Joined(parts)[i] == part[i - 1];
    } else {
      assert Joined(parts)[i] == rest[i - 1 - |part|] && Joined(parts)[i + 1] == rest[i - |part|];
    }
  }
}
