/** String helpers standing for the Python `str` methods the source uses.
    Python's `strip`, `lower`, `upper`, `isdigit` and `split` are Unicode-aware;
    this model restricts them to ASCII (whitespace includes the ASCII
    separators U+001C..U+001F that Python also treats as whitespace).
 */
module Text {
  import opened Wrappers

  const Whitespace: set<char> :=
    {' ', '\t', '\n', '\r', '\U{000B}', '\U{000C}', '\U{001C}', '\U{001D}', '\U{001E}', '\U{001F}'}

  predicate IsSpace(c: char) {
    c in Whitespace
  }

  predicate IsDigit(c: char) {
    '0' <= c <= '9'
  }

  predicate AllDigits(s: string) {
    forall i :: 0 <= i < |s| ==> IsDigit(s[i])
  }

  predicate IsLowerLetter(c: char) {
    'a' <= c <= 'z'
  }

  predicate IsUpperLetter(c: char) {
    'A' <= c <= 'Z'
  }

  // ---------------------------------------------------------------------------
  // Stripping

  /** `s.lstrip(drop)`: the longest suffix of `s` not starting with a dropped char. */
  function TrimStart(s: string, drop: set<char>): (r: string)
    ensures |r| <= |s| && r == s[|s| - |r|..]
    ensures r != [] ==> r[0] !in drop
    ensures forall i :: 0 <= i < |s| - |r| ==> s[i] in drop
    decreases |s|
  {
    if s != [] && s[0] in drop then TrimStart(s[1..], drop) else s
  }

  /** `s.rstrip(drop)`: the longest prefix of `s` not ending with a dropped char. */
  function TrimEnd(s: string, drop: set<char>): (r: string)
    ensures |r| <= |s| && r == s[..|r|]
    ensures r != [] ==> r[|r| - 1] !in drop
    ensures forall i :: |r| <= i < |s| ==> s[i] in drop
    decreases |s|
  {
    if s != [] && s[|s| - 1] in drop then TrimEnd(s[..|s| - 1], drop) else s
  }

  /** `s.strip(drop)`: neither starts nor ends with a dropped character, and
      is empty only when every character is dropped (`StripCharsIsPiece`
      shows it is a contiguous piece of `s`). */
  function StripChars(s: string, drop: set<char>): (r: string)
    ensures |r| <= |s|
    ensures r != [] ==> r[0] !in drop && r[|r| - 1] !in drop
    ensures r == [] <==> forall i :: 0 <= i < |s| ==> s[i] in drop
  {
    TrimBothEmpty(s, drop);
    TrimEnd(TrimStart(s, drop), drop)
  }

  /** Trimming the start keeps every character outside the drop set. */
  lemma {:induction false} TrimStartKeepsOthers(s: string, drop: set<char>)
    ensures forall x :: x in s && x !in drop ==> x in TrimStart(s, drop)
    decreases |s|
  {
    if s != [] && s[0] in drop {
      TrimStartKeepsOthers(s[1..], drop);
      assert s == [s[0]] + s[1..];
    }
  }

  /** `s.strip(drop)` keeps every character outside the drop set: only
      dropped characters are removed from the ends. */
  lemma StripCharsKeepsOthers(s: string, drop: set<char>)
    ensures forall x :: x in s && x !in drop ==> x in StripChars(s, drop)
  {
    var t := TrimStart(s, drop);
    var r := TrimEnd(t, drop);
    TrimStartKeepsOthers(s, drop);
    forall x | x in t && x !in drop ensures x in r {
      var i :| 0 <= i < |t| && t[i] == x;
      assert r[i] == x;
    }
  }

  /** Trimming both ends leaves nothing exactly when every character is dropped. */
  lemma TrimBothEmpty(s: string, drop: set<char>)
    ensures TrimEnd(TrimStart(s, drop), drop) == [] <==> forall i :: 0 <= i < |s| ==> s[i] in drop
  {
    var t := TrimStart(s, drop);
    var r := TrimEnd(t, drop);
    if r == [] {
      assert t == [];
    } else {
      assert t[0] == r[0] && s[|s| - |t|] == t[0];
    }
  }

  /** `s.strip(drop)` is a piece of `s`, found at the returned position. */
  lemma StripCharsIsPiece(s: string, drop: set<char>) returns (a: int)
    ensures PieceAt(s, a, StripChars(s, drop))
  {
    var t := TrimStart(s, drop);
    var r := TrimEnd(t, drop);
    a := |s| - |t|;
    assert r == s[a..][..|r|] == s[a..a + |r|];
  }

  /** `s.strip()` */
  function Strip(s: string): (r: string)
    ensures |r| <= |s|
    ensures r != [] ==> !IsSpace(r[0]) && !IsSpace(r[|r| - 1])
    ensures r == [] <==> forall i :: 0 <= i < |s| ==> IsSpace(s[i])
  {
    StripChars(s, Whitespace)
  }

  /** `s.strip()` is a piece of `s`, found at the returned position. */
  lemma StripIsPiece(s: string) returns (a: int)
    ensures PieceAt(s, a, Strip(s))
  {
    a := StripCharsIsPiece(s, Whitespace);
  }

  /** `s.strip() == ""`: every character is whitespace. */
  predicate Blank(s: string) {
    forall i :: 0 <= i < |s| ==> IsSpace(s[i])
  }

  lemma StripBlank(s: string)
    ensures Strip(s) == [] <==> Blank(s)
  {
  }

  lemma StripCharsNoop(s: string, drop: set<char>)
    requires s == [] || (s[0] !in drop && s[|s| - 1] !in drop)
    ensures StripChars(s, drop) == s
  {
  }

  lemma StripCharsIdempotent(s: string, drop: set<char>)
    ensures StripChars(StripChars(s, drop), drop) == StripChars(s, drop)
  {
    StripCharsNoop(StripChars(s, drop), drop);
  }

  // ---------------------------------------------------------------------------
  // Case mapping (ASCII)

  function LowerChar(c: char): char {
    if IsUpperLetter(c) then (c as int + 32) as char else c
  }

  function UpperChar(c: char): char {
    if IsLowerLetter(c) then (c as int - 32) as char else c
  }

  /** `s.lower()`, character by character. */
  function Lower(s: string): (r: string)
    ensures |r| == |s| && forall i :: 0 <= i < |s| ==> r[i] == LowerChar(s[i])
  {
    seq(|s|, i requires 0 <= i < |s| => LowerChar(s[i]))
  }

  /** `s.upper()`, character by character. */
  function Upper(s: string): (r: string)
    ensures |r| == |s| && forall i :: 0 <= i < |s| ==> r[i] == UpperChar(s[i])
  {
    seq(|s|, i requires 0 <= i < |s| => UpperChar(s[i]))
  }

  lemma UpperNoop(s: string)
    requires forall i :: 0 <= i < |s| ==> !IsLowerLetter(s[i])
    ensures Upper(s) == s
  {
    assert forall i :: 0 <= i < |s| ==> Upper(s)[i] == s[i];
  }

  // ---------------------------------------------------------------------------
  // Searching

  predicate StartsWith(s: string, prefix: string) {
    |prefix| <= |s| && s[..|prefix|] == prefix
  }

  predicate EndsWith(s: string, suffix: string) {
    |suffix| <= |s| && s[|s| - |suffix|..] == suffix
  }

  /** `piece` occurs in `s` starting at position `a`. */
  predicate PieceAt(s: string, a: int, piece: string) {
    0 <= a <= |s| - |piece| && s[a..a + |piece|] == piece
  }

  /** Appending keeps a prefix and ends with what was appended. */
  lemma Affixes(a: string, b: string, p: string)
    requires StartsWith(a, p)
    ensures StartsWith(a + b, p) && EndsWith(a + b, b)
  {
    assert (a + b)[..|p|] == a[..|p|];
    assert (a + b)[|a + b| - |b|..] == b;
  }

  /** Python's `sub in s` for strings. */
  predicate Contains(s: string, sub: string) {
    exists i | 0 <= i <= |s| - |sub| :: PieceAt(s, i, sub)
  }

  lemma ContainsMiddle(a: string, b: string, c: string)
    ensures Contains(a + b + c, b)
  {
    assert PieceAt(a + b + c, |a|, b);
  }

  lemma ContainsConcat(a: string, b: string, sub: string)
    requires Contains(a, sub) || Contains(b, sub) || a == sub || b == sub
    ensures Contains(a + b, sub)
  {
    if a == sub {
      assert PieceAt(a + b, 0, sub);
    } else if b == sub {
      assert PieceAt(a + b, |a|, sub);
    } else if Contains(a, sub) {
      var i :| 0 <= i <= |a| - |sub| && PieceAt(a, i, sub);
      assert (a + b)[i..i + |sub|] == a[i..i + |sub|];
      assert PieceAt(a + b, i, sub);
    } else {
      var i :| 0 <= i <= |b| - |sub| && PieceAt(b, i, sub);
      assert (a + b)[|a| + i..|a| + i + |sub|] == b[i..i + |sub|];
      assert PieceAt(a + b, |a| + i, sub);
    }
  }

  lemma ContainsPrefix(a: string, b: string, sub: string)
    requires Contains(a, sub)
    ensures Contains(a + b, sub)
  {
    ContainsConcat(a, b, sub);
  }

  lemma ContainsTransitive(s: string, mid: string, sub: string)
    requires Contains(s, mid) && Contains(mid, sub)
    ensures Contains(s, sub)
  {
    var i :| 0 <= i <= |s| - |mid| && PieceAt(s, i, mid);
    var j :| 0 <= j <= |mid| - |sub| && PieceAt(mid, j, sub);
    assert s[i + j..i + j + |sub|] == sub by {
      forall k | 0 <= k < |sub|
        ensures s[i + j..i + j + |sub|][k] == sub[k]
      {
        assert sub[k] == mid[j..j + |sub|][k] == mid[j + k];
        assert mid[j + k] == s[i..i + |mid|][j + k] == s[i + j + k];
      }
    }
    assert PieceAt(s, i + j, sub);
  }

  /** `s.find(c)` as an option: the first position holding `c`. */
  function IndexOf(s: string, c: char): (r: Option<nat>)
    ensures r.None? <==> c !in s
    ensures r.Some? ==> r.value < |s| && s[r.value] == c && c !in s[..r.value]
    decreases |s|
  {
    if s == [] then None
    else if s[0] == c then Some(0)
    else match IndexOf(s[1..], c)
      case None => None
      case Some(k) => Some(k + 1)
  }

  // ---------------------------------------------------------------------------
  // Joining and splitting

  /** `sep.join(parts)` */
  function Join(parts: seq<string>, sep: string): string
    decreases |parts|
  {
    if |parts| == 0 then ""
    else if |parts| == 1 then parts[0]
    else parts[0] + sep + Join(parts[1..], sep)
  }

  /** Every part occurs in the joined string, at a position the lemma returns. */
  lemma {:induction false} JoinContains(parts: seq<string>, sep: string, k: nat) returns (at: nat)
    requires k < |parts|
    ensures at + |parts[k]| <= |Join(parts, sep)| && Join(parts, sep)[at..at + |parts[k]|] == parts[k]
    ensures Contains(Join(parts, sep), parts[k])
    decreases |parts|
  {
    if |parts| == 1 {
      at := 0;
    } else if k == 0 {
      at := 0;
      assert Join(parts, sep) == parts[0] + (sep + Join(parts[1..], sep));
    } else {
      var i := JoinContains(parts[1..], sep, k - 1);
      var rest := Join(parts[1..], sep);
      var pre := parts[0] + sep;
      assert Join(parts, sep) == pre + rest;
      at := |pre| + i;
      assert (pre + rest)[at..at + |parts[k]|] == rest[i..i + |parts[k]|];
    }
    assert PieceAt(Join(parts, sep), at, parts[k]);
  }

  /** Every part appears in the join. */
  lemma JoinShowsEveryPart(parts: seq<string>, sep: string)
    ensures forall k :: 0 <= k < |parts| ==> Contains(Join(parts, sep), parts[k])
  {
    forall k | 0 <= k < |parts| ensures Contains(Join(parts, sep), parts[k]) {
      var at := JoinContains(parts, sep, k);
    }
  }

  /** A character absent from the parts and the separator is absent from the join. */
  lemma {:induction false} JoinNoChar(parts: seq<string>, sep: string, c: char)
    requires c !in sep
    requires forall i :: 0 <= i < |parts| ==> c !in parts[i]
    ensures c !in Join(parts, sep)
    decreases |parts|
  {
    if |parts| > 1 {
      JoinNoChar(parts[1..], sep, c);
      assert Join(parts, sep) == parts[0] + sep + Join(parts[1..], sep);
    }
  }

  lemma JoinStartsWithFirst(parts: seq<string>, sep: string)
    requires parts != []
    ensures StartsWith(Join(parts, sep), parts[0])
  {
    if |parts| > 1 {
      assert Join(parts, sep) == parts[0] + (sep + Join(parts[1..], sep));
    }
  }

  /** `s.split(sep)` for a one-character separator. */
  function Split(s: string, sep: char): (parts: seq<string>)
    ensures |parts| >= 1
    ensures forall i :: 0 <= i < |parts| ==> sep !in parts[i]
    ensures Join(parts, [sep]) == s
    decreases |s|
  {
    match IndexOf(s, sep)
    case None => [s]
    case Some(k) =>
      var rest := Split(s[k + 1..], sep);
      assert s == s[..k] + [sep] + s[k + 1..];
      [s[..k]] + rest
  }

  /** Splitting a join gives the parts back when no part holds the separator. */
  lemma {:induction false} SplitJoin(parts: seq<string>, sep: char)
    requires |parts| >= 1
    requires forall i :: 0 <= i < |parts| ==> sep !in parts[i]
    ensures Split(Join(parts, [sep]), sep) == parts
    decreases |parts|
  {
    if |parts| == 1 {
      assert IndexOf(parts[0], sep).None?;
    } else {
      var s := Join(parts, [sep]);
      var rest := Join(parts[1..], [sep]);
      assert s == parts[0] + [sep] + rest;
      var k := |parts[0]|;
      assert s[k] == sep;
      assert s[..k] == parts[0];
      assert sep !in s[..k];
      assert IndexOf(s, sep) == Some(k) by {
        var r := IndexOf(s, sep);
        assert r.Some?;
      }
      assert s[k + 1..] == rest;
      SplitJoin(parts[1..], sep);
    }
  }

  // ---------------------------------------------------------------------------
  // Regular-expression rewrites over character classes

  /** No two neighbouring characters both belong to `cls`. */
  predicate NoAdjacent(s: string, cls: set<char>) {
    forall i :: 0 <= i < |s| - 1 ==> !(s[i] in cls && s[i + 1] in cls)
  }

  /** A contiguous piece of a string keeps the no-neighbours property. */
  lemma NoAdjacentPiece(s: string, a: int, piece: string, cls: set<char>)
    requires NoAdjacent(s, cls) && PieceAt(s, a, piece)
    ensures NoAdjacent(piece, cls)
  {
    forall i | 0 <= i < |piece| - 1
      ensures !(piece[i] in cls && piece[i + 1] in cls)
    {
      assert piece[i] == s[a + i] && piece[i + 1] == s[a + i + 1];
    }
  }

  /** `re.sub('[cls]', c, s)`: every character of the class replaced by `c`. */
  function ReplaceIn(s: string, cls: set<char>, c: char): (r: string)
    ensures |r| == |s|
    ensures forall i :: 0 <= i < |s| ==> r[i] == (if s[i] in cls then c else s[i])
  {
    seq(|s|, i requires 0 <= i < |s| => if s[i] in cls then c else s[i])
  }

  /** After replacing, every character is `c` or an input character outside the class. */
  lemma ReplaceInChars(s: string, cls: set<char>, c: char)
    ensures forall x :: x in ReplaceIn(s, cls, c) ==> x == c || (x in s && x !in cls)
  {
    var r := ReplaceIn(s, cls, c);
    forall x | x in r ensures x == c || (x in s && x !in cls) {
      var i :| 0 <= i < |r| && r[i] == x;
      assert s[i] in s;
    }
  }

  /** Replacing keeps every input character outside the class. */
  lemma ReplaceInKeepsOthers(s: string, cls: set<char>, c: char)
    ensures forall x :: x in s && x !in cls ==> x in ReplaceIn(s, cls, c)
  {
    var r := ReplaceIn(s, cls, c);
    forall x | x in s && x !in cls ensures x in r {
      var i :| 0 <= i < |s| && s[i] == x;
      assert r[i] == x;
    }
  }

  /** A piece of a slice is a piece of the whole string. */
  lemma PieceOfSlice(s: string, a: int, b: int, k: int, piece: string)
    requires 0 <= a <= b <= |s| && PieceAt(s[a..b], k, piece)
    ensures a <= a + k && a + k + |piece| <= b && PieceAt(s, a + k, piece)
  {
    forall j | 0 <= j < |piece| ensures s[a + k + j] == piece[j] {
      assert piece[j] == s[a..b][k..k + |piece|][j];
    }
    assert s[a + k..a + k + |piece|] == piece;
  }

  /** Stripping a slice leaves a piece of the whole string, found at the returned position. */
  lemma StripSliceIsPiece(s: string, a: int, b: int) returns (at: int)
    requires 0 <= a <= b <= |s|
    ensures a <= at && at + |Strip(s[a..b])| <= b && PieceAt(s, at, Strip(s[a..b]))
  {
    var k := StripIsPiece(s[a..b]);
    at := ShiftPiece(s, a, b, k, Strip(s[a..b]));
  }

  lemma ShiftPiece(s: string, a: int, b: int, k: int, piece: string) returns (at: int)
    requires 0 <= a <= b <= |s| && PieceAt(s[a..b], k, piece)
    ensures a <= at && at + |piece| <= b && PieceAt(s, at, piece)
  {
    PieceOfSlice(s, a, b, k, piece);
    at := a + k;
  }

  /** Stripping keeps only input characters and keeps the no-neighbours property. */
  lemma StripCharsKeeps(s: string, drop: set<char>, cls: set<char>)
    ensures forall x :: x in StripChars(s, drop) ==> x in s
    ensures NoAdjacent(s, cls) ==> NoAdjacent(StripChars(s, drop), cls)
  {
    var r := StripChars(s, drop);
    var a := StripCharsIsPiece(s, drop);
    forall x | x in r ensures x in s {
      var i :| 0 <= i < |r| && r[i] == x;
      assert s[a + i] == r[i];
    }
    if NoAdjacent(s, cls) {
      NoAdjacentPiece(s, a, r, cls);
    }
  }

  /** Replacing changes nothing when no character belongs to the class. */
  lemma ReplaceInNoop(s: string, cls: set<char>, c: char)
    requires forall i :: 0 <= i < |s| ==> s[i] !in cls
    ensures ReplaceIn(s, cls, c) == s
  {
    assert forall i :: 0 <= i < |s| ==> ReplaceIn(s, cls, c)[i] == s[i];
  }

  /** `re.sub('[cls]+', c, s)`: every maximal run of class characters becomes one `c`. */
  function SqueezeRuns(s: string, cls: set<char>, c: char): (r: string)
    ensures |r| <= |s|
    ensures r == [] <==> s == []
    ensures s != [] ==> r[0] == (if s[0] in cls then c else s[0])
    decreases |s|
  {
    if s == [] then []
    else if s[0] in cls then
      var rest := TrimStart(s[1..], cls);
      [c] + SqueezeRuns(rest, cls, c)
    else
      [s[0]] + SqueezeRuns(s[1..], cls, c)
  }

  /** After squeezing, every character is `c` or an input character outside the class. */
  lemma {:induction false} SqueezeRunsChars(s: string, cls: set<char>, c: char)
    ensures forall x :: x in SqueezeRuns(s, cls, c) ==> x == c || (x in s && x !in cls)
    decreases |s|
  {
    if s != [] {
      var rest := if s[0] in cls then TrimStart(s[1..], cls) else s[1..];
      SqueezeRunsChars(rest, cls, c);
      assert rest == s[|s| - |rest|..];
      assert forall x :: x in rest ==> x in s;
      assert SqueezeRuns(s, cls, c) == [if s[0] in cls then c else s[0]] + SqueezeRuns(rest, cls, c);
    }
  }

  /** Squeezing keeps every input character outside the class. */
  lemma {:induction false} SqueezeRunsKeepsOthers(s: string, cls: set<char>, c: char)
    ensures forall x :: x in s && x !in cls ==> x in SqueezeRuns(s, cls, c)
    decreases |s|
  {
    if s != [] {
      var rest := if s[0] in cls then TrimStart(s[1..], cls) else s[1..];
      SqueezeRunsKeepsOthers(rest, cls, c);
      TrimStartKeepsOthers(s[1..], cls);
      var r := SqueezeRuns(s, cls, c);
      assert r == [if s[0] in cls then c else s[0]] + SqueezeRuns(rest, cls, c);
      forall x | x in s && x !in cls ensures x in r {
        if x != s[0] {
          assert x in s[1..];
        }
      }
    }
  }

  /** When the replacement belongs to the class, no two class characters touch afterwards. */
  lemma {:induction false} SqueezeRunsNoAdjacent(s: string, cls: set<char>, c: char)
    requires c in cls
    ensures NoAdjacent(SqueezeRuns(s, cls, c), cls)
    decreases |s|
  {
    if s != [] {
      var rest := if s[0] in cls then TrimStart(s[1..], cls) else s[1..];
      SqueezeRunsNoAdjacent(rest, cls, c);
      var tail := SqueezeRuns(rest, cls, c);
      assert tail != [] && s[0] in cls ==> tail[0] !in cls;
      var r := SqueezeRuns(s, cls, c);
      assert r == [if s[0] in cls then c else s[0]] + tail;
      forall i | 0 <= i < |r| - 1 ensures !(r[i] in cls && r[i + 1] in cls) {
        if i > 0 {
          assert r[i] == tail[i - 1] && r[i + 1] == tail[i];
        }
      }
    }
  }

  /** Squeezing changes nothing where every class character already is `c`
      and no two of them touch. */
  lemma {:induction false} SqueezeRunsNoop(s: string, cls: set<char>, c: char)
    requires forall i :: 0 <= i < |s| && s[i] in cls ==> s[i] == c
    requires NoAdjacent(s, cls)
    ensures SqueezeRuns(s, cls, c) == s
    decreases |s|
  {
    if s != [] {
      if s[0] in cls {
        assert |s| > 1 ==> s[1] !in cls;
        assert TrimStart(s[1..], cls) == s[1..];
      }
      SqueezeRunsNoop(s[1..], cls, c);
    }
  }

  /** `re.sub('[cls]+', lambda m: m.group()[0], s)`: every maximal run of
      class characters is cut down to its first character. */
  function KeepFirstOfRuns(s: string, cls: set<char>): (r: string)
    ensures |r| <= |s|
    ensures r == [] <==> s == []
    ensures s != [] ==> r[0] == s[0]
    decreases |s|
  {
    if s == [] then []
    else
      var rest := if s[0] in cls then TrimStart(s[1..], cls) else s[1..];
      [s[0]] + KeepFirstOfRuns(rest, cls)
  }

  /** Every kept character comes from the input. */
  lemma {:induction false} KeepFirstOfRunsChars(s: string, cls: set<char>)
    ensures forall x :: x in KeepFirstOfRuns(s, cls) ==> x in s
    decreases |s|
  {
    if s != [] {
      var rest := if s[0] in cls then TrimStart(s[1..], cls) else s[1..];
      KeepFirstOfRunsChars(rest, cls);
      assert rest == s[|s| - |rest|..];
      assert forall x :: x in rest ==> x in s;
      assert KeepFirstOfRuns(s, cls) == [s[0]] + KeepFirstOfRuns(rest, cls);
    }
  }

  /** Cutting runs down keeps every input character outside the class. */
  lemma {:induction false} KeepFirstOfRunsKeepsOthers(s: string, cls: set<char>)
    ensures forall x :: x in s && x !in cls ==> x in KeepFirstOfRuns(s, cls)
    decreases |s|
  {
    if s != [] {
      var rest := if s[0] in cls then TrimStart(s[1..], cls) else s[1..];
      KeepFirstOfRunsKeepsOthers(rest, cls);
      TrimStartKeepsOthers(s[1..], cls);
      var r := KeepFirstOfRuns(s, cls);
      assert r == [s[0]] + KeepFirstOfRuns(rest, cls);
      forall x | x in s && x !in cls ensures x in r {
        if x != s[0] {
          assert x in s[1..];
        }
      }
    }
  }

  /** No two class characters touch after the runs are cut down. */
  lemma {:induction false} KeepFirstOfRunsNoAdjacent(s: string, cls: set<char>)
    ensures NoAdjacent(KeepFirstOfRuns(s, cls), cls)
    decreases |s|
  {
    if s != [] {
      var rest := if s[0] in cls then TrimStart(s[1..], cls) else s[1..];
      KeepFirstOfRunsNoAdjacent(rest, cls);
      var tail := KeepFirstOfRuns(rest, cls);
      assert tail != [] && s[0] in cls ==> tail[0] !in cls;
      var r := KeepFirstOfRuns(s, cls);
      assert r == [s[0]] + tail;
      forall i | 0 <= i < |r| - 1 ensures !(r[i] in cls && r[i + 1] in cls) {
        if i > 0 {
          assert r[i] == tail[i - 1] && r[i + 1] == tail[i];
        }
      }
    }
  }

  /** Keeping the first of each run changes nothing where no two class
      characters touch. */
  lemma {:induction false} KeepFirstOfRunsNoop(s: string, cls: set<char>)
    requires NoAdjacent(s, cls)
    ensures KeepFirstOfRuns(s, cls) == s
    decreases |s|
  {
    if s != [] {
      if s[0] in cls {
        assert |s| > 1 ==> s[1] !in cls;
        assert TrimStart(s[1..], cls) == s[1..];
      }
      KeepFirstOfRunsNoop(s[1..], cls);
    }
  }

  /** A word character of a regular expression's `\w` (ASCII letters, digits, underscore). */
  predicate IsWordChar(c: char) {
    IsLowerLetter(c) || IsUpperLetter(c) || IsDigit(c) || c == '_'
  }

  /** The number of maximal runs of non-whitespace characters, i.e. `len(s.split())`. */
  function WordCount(s: string): nat {
    WordsAfter(s, true)
  }

  /** Word starts in `s`, given whether the character before `s` was whitespace. */
  function WordsAfter(s: string, afterSpace: bool): (n: nat)
    ensures n <= |s|
    decreases |s|
  {
    if s == [] then 0
    else (if afterSpace && !IsSpace(s[0]) then 1 else 0) + WordsAfter(s[1..], IsSpace(s[0]))
  }

  // ---------------------------------------------------------------------------
  // Decimal numbers

  function DigitChar(d: nat): (c: char)
    requires d < 10
    ensures IsDigit(c) && c as int - '0' as int == d
  {
    ('0' as int + d) as char
  }

  function DigitValue(c: char): (d: nat)
    requires IsDigit(c)
    ensures d < 10
  {
    c as int - '0' as int
  }

  /** `str(n)` for a non-negative int. */
  function NatToString(n: nat): (r: string)
    ensures |r| >= 1 && AllDigits(r)
    decreases n
  {
    if n < 10 then [DigitChar(n)] else NatToString(n / 10) + [DigitChar(n % 10)]
  }

  /** `int(s)` for a non-empty run of ASCII digits (leading zeros allowed). */
  function DigitsValue(s: string): nat
    requires AllDigits(s)
    decreases |s|
  {
    if s == [] then 0 else DigitsValue(s[..|s| - 1]) * 10 + DigitValue(s[|s| - 1])
  }

  function Pow10(k: nat): (p: nat)
    ensures p >= 1
  {
    if k == 0 then 1 else 10 * Pow10(k - 1)
  }

  /** `int(str(n)) == n` */
  lemma {:induction false} DigitsRoundTrip(n: nat)
    ensures DigitsValue(NatToString(n)) == n
    decreases n
  {
    var s := NatToString(n);
    if n >= 10 {
      DigitsRoundTrip(n / 10);
      assert s[..|s| - 1] == NatToString(n / 10);
    }
  }

  /** Decimal renderings of distinct numbers differ. */
  lemma NatToStringInjective(a: nat, b: nat)
    requires NatToString(a) == NatToString(b)
    ensures a == b
  {
    DigitsRoundTrip(a);
    DigitsRoundTrip(b);
  }

  /** A run of k digits denotes a number below 10^k. */
  lemma {:induction false} DigitsValueBound(s: string)
    requires AllDigits(s)
    ensures DigitsValue(s) < Pow10(|s|)
    decreases |s|
  {
    if s != [] {
      DigitsValueBound(s[..|s| - 1]);
    }
  }
}
