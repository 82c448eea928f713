/** The small part of JavaScript's built-in behaviour that the modelled code
    relies on: optional values, JSON values and their truthiness, and the
    string methods `toLowerCase`, `trim`, `replace(/\s+/g, '')`, `includes`,
    `split` and `join`, all on an ASCII character set. */
module Js {

  datatype Option<T> = None | Some(value: T)

  /** The JSON values a request body can carry for one key; `Undefined` is a
      key that is absent. Numbers are modelled as integers plus NaN. */
  datatype Value =
    | Undefined
    | Null
    | Bool(b: bool)
    | Number(n: int)
    | NaN
    | Str(s: string)
    | Object

  /** JavaScript's truthiness (what `x && ...`, `x || ...` and `if (x)` test). */
  predicate Truthy(v: Value) {
    match v
    case Undefined => false
    case Null => false
    case Bool(b) => b
    case Number(n) => n != 0
    case NaN => false
    case Str(s) => s != ""
    case Object => true
  }

  // ---------------------------------------------------------------------------
  // Characters

  /** The ASCII characters matched by the regular-expression class `\s` and
      removed by `trim`: tab, line feed, vertical tab, form feed, carriage
      return and space. */
  predicate IsWhitespace(c: char) {
    c == ' ' || ('\t' <= c <= '\r')
  }

  predicate IsUpper(c: char) {
    'A' <= c <= 'Z'
  }

  function LowerChar(c: char): (d: char)
    ensures !IsUpper(d)
    ensures IsWhitespace(d) <==> IsWhitespace(c)
    ensures !IsUpper(c) ==> d == c
  {
    if IsUpper(c) then (c as int + 32) as char else c
  }

  // ---------------------------------------------------------------------------
  // toLowerCase

  /** `s.toLowerCase()` on ASCII. */
  function ToLowerCase(s: string): (r: string)
    ensures |r| == |s|
    ensures forall i | 0 <= i < |s| :: r[i] == LowerChar(s[i])
  {
    seq(|s|, i requires 0 <= i < |s| => LowerChar(s[i]))
  }

  predicate IsLower(s: string) {
    forall i | 0 <= i < |s| :: !IsUpper(s[i])
  }

  lemma LowerIsLower(s: string)
    ensures IsLower(ToLowerCase(s))
  {
  }

  lemma LowerIdempotent(s: string)
    ensures ToLowerCase(ToLowerCase(s)) == ToLowerCase(s)
  {
  }

  lemma LowerAppend(a: string, b: string)
    ensures ToLowerCase(a + b) == ToLowerCase(a) + ToLowerCase(b)
  {
  }

  // ---------------------------------------------------------------------------
  // trim

  predicate AllWhitespace(s: string) {
    forall i | 0 <= i < |s| :: IsWhitespace(s[i])
  }

  predicate NoWhitespace(s: string) {
    forall i | 0 <= i < |s| :: !IsWhitespace(s[i])
  }

  /** `s.trimStart()`: `s` without its leading whitespace. */
  function TrimStart(s: string): string {
    if s != [] && IsWhitespace(s[0]) then TrimStart(s[1..]) else s
  }

  /** `s.trimEnd()`: `s` without its trailing whitespace. */
  function TrimEnd(s: string): string {
    if s != [] && IsWhitespace(s[|s| - 1]) then TrimEnd(s[..|s| - 1]) else s
  }

  /** `s.trim()`: `s` without its leading and trailing whitespace. */
  function Trim(s: string): string {
    TrimEnd(TrimStart(s))
  }

  /** `trimStart` removes a whitespace prefix and stops at the first other
      character. */
  lemma {:induction false} TrimStartSpec(s: string)
    ensures |TrimStart(s)| <= |s| && TrimStart(s) == s[|s| - |TrimStart(s)|..]
    ensures AllWhitespace(s[..|s| - |TrimStart(s)|])
    ensures TrimStart(s) == [] || !IsWhitespace(TrimStart(s)[0])
  {
    if s != [] && IsWhitespace(s[0]) {
      TrimStartSpec(s[1..]);
      var k := |s| - |TrimStart(s)|;
      forall i | 0 <= i < k ensures IsWhitespace(s[..k][i]) {
        assert s[..k][i] == s[i];
        if i > 0 { assert s[i] == s[1..][..k - 1][i - 1]; }
      }
    }
  }

  /** `trimEnd` removes a whitespace suffix and stops at the last other
      character. */
  lemma {:induction false} TrimEndSpec(s: string)
    ensures |TrimEnd(s)| <= |s| && TrimEnd(s) == s[..|TrimEnd(s)|]
    ensures AllWhitespace(s[|TrimEnd(s)|..])
    ensures TrimEnd(s) == [] || !IsWhitespace(TrimEnd(s)[|TrimEnd(s)| - 1])
  {
    if s != [] && IsWhitespace(s[|s| - 1]) {
      var s' := s[..|s| - 1];
      TrimEndSpec(s');
      var k := |TrimEnd(s)|;
      assert TrimEnd(s) == TrimEnd(s');
      assert s'[..k] == s[..k];
      forall i | 0 <= i < |s| - k ensures IsWhitespace(s[k..][i]) {
        if k + i < |s| - 1 { assert s[k..][i] == s'[k..][i]; }
      }
    }
  }

  /** `trim` keeps a middle slice of `s` whose ends are not whitespace and
      drops only whitespace around it. */
  lemma TrimSpec(s: string)
    ensures exists a, b :: 0 <= a <= b <= |s| && Trim(s) == s[a..b]
                           && AllWhitespace(s[..a]) && AllWhitespace(s[b..])
    ensures Trim(s) == [] || (!IsWhitespace(Trim(s)[0]) && !IsWhitespace(Trim(s)[|Trim(s)| - 1]))
  {
    var t := TrimStart(s);
    TrimStartSpec(s);
    TrimEndSpec(t);
    var r := TrimEnd(t);
    var a, b := |s| - |t|, |s| - |t| + |r|;
    assert r == s[a..b] && s[b..] == t[|r|..];
  }

  lemma TrimOfBlank(s: string)
    ensures Trim(s) == "" <==> AllWhitespace(s)
  {
    var t := TrimStart(s);
    TrimStartSpec(s);
    TrimEndSpec(t);
    if AllWhitespace(s) {
      TrimStartOfBlank(s);
    }
    if Trim(s) == "" {
      assert AllWhitespace(t) by { assert t[0..] == t; }
      assert t == [];
      assert s[..|s| - |t|] == s;
    }
  }

  lemma {:induction false} TrimStartOfBlank(s: string)
    requires AllWhitespace(s)
    ensures TrimStart(s) == ""
  {
    if s != [] { TrimStartOfBlank(s[1..]); }
  }

  /** Trimming twice is trimming once. */
  lemma TrimOfTrimmed(s: string)
    ensures Trim(Trim(s)) == Trim(s)
  {
    TrimSpec(s);
    var t := Trim(s);
    if t != [] {
      assert TrimStart(t) == t;
      assert TrimEnd(t) == t;
    }
  }

  lemma TrimOfLower(s: string)
    ensures Trim(ToLowerCase(s)) == ToLowerCase(Trim(s))
  {
    TrimStartOfLower(s);
    TrimEndOfLower(TrimStart(s));
  }

  lemma {:induction false} TrimStartOfLower(s: string)
    ensures TrimStart(ToLowerCase(s)) == ToLowerCase(TrimStart(s))
  {
    if s != [] && IsWhitespace(s[0]) {
      assert ToLowerCase(s)[1..] == ToLowerCase(s[1..]);
      TrimStartOfLower(s[1..]);
    }
  }

  lemma {:induction false} TrimEndOfLower(s: string)
    ensures TrimEnd(ToLowerCase(s)) == ToLowerCase(TrimEnd(s))
  {
    if s != [] && IsWhitespace(s[|s| - 1]) {
      assert ToLowerCase(s)[..|s| - 1] == ToLowerCase(s[..|s| - 1]);
      TrimEndOfLower(s[..|s| - 1]);
    }
  }

  // ---------------------------------------------------------------------------
  // replace(/\s+/g, '')

  /** `s.replace(/\s+/g, '')`: `s` with every whitespace character removed. */
  function RemoveWhitespace(s: string): string {
    if s == [] then []
    else if IsWhitespace(s[0]) then RemoveWhitespace(s[1..])
    else [s[0]] + RemoveWhitespace(s[1..])
  }

  /** What is left holds no whitespace at all, and every character of `s`
      that is not whitespace is kept. */
  lemma {:induction false} RemoveWhitespaceSpec(s: string)
    ensures NoWhitespace(RemoveWhitespace(s))
    ensures |RemoveWhitespace(s)| <= |s|
    ensures forall c | c in s && !IsWhitespace(c) :: c in RemoveWhitespace(s)
  {
    if s != [] {
      RemoveWhitespaceSpec(s[1..]);
      forall c | c in s && !IsWhitespace(c) ensures c in RemoveWhitespace(s) {
        if c != s[0] { assert c in s[1..]; }
      }
    }
  }

  /** Every position moved one place to the right. */
  lemma ShiftPositions(rest: seq<int>) returns (shifted: seq<int>)
    ensures |shifted| == |rest|
    ensures forall k | 0 <= k < |rest| :: shifted[k] == rest[k] + 1
    ensures forall i :: i in shifted <==> i - 1 in rest
    ensures forall k, l | 0 <= k < l < |rest| :: rest[k] < rest[l] <==> shifted[k] < shifted[l]
  {
    shifted := seq(|rest|, k requires 0 <= k < |rest| => rest[k] + 1);
    forall i ensures i in shifted <==> i - 1 in rest {
      if i in shifted {
        var k :| 0 <= k < |shifted| && shifted[k] == i;
        assert rest[k] == i - 1;
      }
      if i - 1 in rest {
        var k :| 0 <= k < |rest| && rest[k] == i - 1;
        assert shifted[k] == i;
      }
    }
  }

  /** `r` is picked out of `s` by the strictly increasing positions `idx`,
      and those are exactly the positions of the non-whitespace characters
      of `s`. */
  predicate PicksNonWhitespace(s: string, r: string, idx: seq<int>) {
    && |idx| == |r|
    && (forall k | 0 <= k < |idx| :: 0 <= idx[k] < |s| && r[k] == s[idx[k]])
    && (forall k, l | 0 <= k < l < |idx| :: idx[k] < idx[l])
    && (forall i | 0 <= i < |s| :: i in idx <==> !IsWhitespace(s[i]))
  }

  /** Position 0 put in front of later positions. */
  lemma PrependZero(shifted: seq<int>) returns (idx: seq<int>)
    requires forall k | 0 <= k < |shifted| :: shifted[k] >= 1
    requires forall k, l | 0 <= k < l < |shifted| :: shifted[k] < shifted[l]
    ensures |idx| == |shifted| + 1 && idx[0] == 0
    ensures forall k | 1 <= k < |idx| :: idx[k] == shifted[k - 1]
    ensures forall k, l | 0 <= k < l < |idx| :: idx[k] < idx[l]
    ensures forall i :: i in idx <==> i == 0 || i in shifted
  {
    idx := [0] + shifted;
  }

  /** The positions of the characters after the first, seen from `s`. */
  lemma ShiftedPicks(s: string, r: string, rest: seq<int>) returns (shifted: seq<int>)
    requires s != []
    requires PicksNonWhitespace(s[1..], r, rest)
    ensures |shifted| == |r|
    ensures forall k | 0 <= k < |shifted| :: 1 <= shifted[k] < |s| && r[k] == s[shifted[k]]
    ensures forall k, l | 0 <= k < l < |shifted| :: shifted[k] < shifted[l]
    ensures forall i | 1 <= i < |s| :: i in shifted <==> !IsWhitespace(s[i])
    ensures 0 !in shifted
  {
    shifted := ShiftPositions(rest);
    forall k | 0 <= k < |shifted| ensures 1 <= shifted[k] < |s| && s[shifted[k]] == r[k] {
      assert s[rest[k] + 1] == s[1..][rest[k]];
    }
    forall i | 1 <= i < |s| ensures i in shifted <==> !IsWhitespace(s[i]) {
      assert s[i] == s[1..][i - 1];
    }
  }

  /** A whitespace character in front adds no position. */
  lemma SkipHead(s: string, r: string, rest: seq<int>) returns (idx: seq<int>)
    requires s != [] && IsWhitespace(s[0])
    requires PicksNonWhitespace(s[1..], r, rest)
    ensures PicksNonWhitespace(s, r, idx)
  {
    idx := ShiftedPicks(s, r, rest);
  }

  /** Any other character in front is kept, at position 0. */
  lemma KeepHead(s: string, r: string, rest: seq<int>) returns (idx: seq<int>)
    requires s != [] && !IsWhitespace(s[0])
    requires PicksNonWhitespace(s[1..], r, rest)
    ensures PicksNonWhitespace(s, [s[0]] + r, idx)
  {
    var shifted := ShiftedPicks(s, r, rest);
    idx := KeepFirst(s, r, shifted);
  }

  /** Position 0 put in front of the positions of the later characters. */
  lemma KeepFirst(s: string, r: string, shifted: seq<int>) returns (idx: seq<int>)
    requires s != [] && !IsWhitespace(s[0])
    requires |shifted| == |r|
    requires forall k | 0 <= k < |shifted| :: 1 <= shifted[k] < |s| && r[k] == s[shifted[k]]
    requires forall k, l | 0 <= k < l < |shifted| :: shifted[k] < shifted[l]
    requires forall i | 1 <= i < |s| :: i in shifted <==> !IsWhitespace(s[i])
    ensures PicksNonWhitespace(s, [s[0]] + r, idx)
  {
    idx := PrependZero(shifted);
    var kept := [s[0]] + r;
    forall k | 0 <= k < |idx| ensures 0 <= idx[k] < |s| && kept[k] == s[idx[k]] {
      if k > 0 {
        assert idx[k] == shifted[k - 1] && kept[k] == r[k - 1];
      }
    }
    forall i | 0 <= i < |s| ensures i in idx <==> !IsWhitespace(s[i]) {
      if i > 0 {
        assert i in idx <==> i in shifted;
      }
    }
  }

  /** Exactly the non-whitespace characters are kept, in their order. */
  lemma {:induction false} RemoveWhitespacePositions(s: string) returns (idx: seq<int>)
    ensures |idx| == |RemoveWhitespace(s)|
    ensures forall k | 0 <= k < |idx| :: 0 <= idx[k] < |s| && RemoveWhitespace(s)[k] == s[idx[k]]
    ensures forall k, l | 0 <= k < l < |idx| :: idx[k] < idx[l]
    ensures forall i | 0 <= i < |s| :: i in idx <==> !IsWhitespace(s[i])
  {
    if s == [] {
      idx := [];
    } else {
      var rest := RemoveWhitespacePositions(s[1..]);
      if IsWhitespace(s[0]) {
        idx := SkipHead(s, RemoveWhitespace(s[1..]), rest);
      } else {
        idx := KeepHead(s, RemoveWhitespace(s[1..]), rest);
      }
    }
  }

  lemma {:induction false} RemoveWhitespaceAppend(a: string, b: string)
    ensures RemoveWhitespace(a + b) == RemoveWhitespace(a) + RemoveWhitespace(b)
  {
    if a == [] {
      assert a + b == b;
    } else {
      assert (a + b)[0] == a[0] && (a + b)[1..] == a[1..] + b;
      RemoveWhitespaceAppend(a[1..], b);
    }
  }

  lemma {:induction false} RemoveWhitespaceOfBlank(s: string)
    requires AllWhitespace(s)
    ensures RemoveWhitespace(s) == ""
  {
    if s != [] { RemoveWhitespaceOfBlank(s[1..]); }
  }

  lemma {:induction false} RemoveWhitespaceOfClean(s: string)
    requires NoWhitespace(s)
    ensures RemoveWhitespace(s) == s
  {
    if s != [] { RemoveWhitespaceOfClean(s[1..]); }
  }

  lemma RemoveWhitespaceAround(x: string, y: string, z: string)
    requires AllWhitespace(x) && AllWhitespace(z)
    ensures RemoveWhitespace(x + y + z) == RemoveWhitespace(y)
  {
    RemoveWhitespaceAppend(x + y, z);
    RemoveWhitespaceAppend(x, y);
    RemoveWhitespaceOfBlank(x);
    RemoveWhitespaceOfBlank(z);
  }

  lemma SplitThree(s: string, a: nat, b: nat)
    requires a <= b <= |s|
    ensures s == s[..a] + s[a..b] + s[b..]
  {
  }

  /** Removing all whitespace subsumes trimming first. */
  lemma RemoveWhitespaceOfTrim(s: string)
    ensures RemoveWhitespace(Trim(s)) == RemoveWhitespace(s)
  {
    TrimSpec(s);
    var a, b :| 0 <= a <= b <= |s| && Trim(s) == s[a..b]
                && AllWhitespace(s[..a]) && AllWhitespace(s[b..]);
    SplitThree(s, a, b);
    RemoveWhitespaceAround(s[..a], s[a..b], s[b..]);
  }

  lemma {:induction false} RemoveWhitespaceOfLower(s: string)
    ensures RemoveWhitespace(ToLowerCase(s)) == ToLowerCase(RemoveWhitespace(s))
  {
    if s != [] {
      assert ToLowerCase(s)[1..] == ToLowerCase(s[1..]);
      RemoveWhitespaceOfLower(s[1..]);
      if !IsWhitespace(s[0]) {
        LowerAppend([s[0]], RemoveWhitespace(s[1..]));
      }
    }
  }

  // ---------------------------------------------------------------------------
  // includes

  /** `needle` occurs in `hay` starting at position `i`. */
  predicate OccursAt(hay: string, needle: string, i: int) {
    0 <= i <= |hay| - |needle| && hay[i..i + |needle|] == needle
  }

  /** `hay.includes(needle)`. */
  predicate Includes(hay: string, needle: string) {
    exists i | 0 <= i <= |hay| - |needle| :: OccursAt(hay, needle, i)
  }

  lemma IncludesEmpty(hay: string)
    ensures Includes(hay, "")
  {
    assert OccursAt(hay, "", 0);
  }

  lemma IncludesSelf(s: string)
    ensures Includes(s, s)
  {
    assert OccursAt(s, s, 0);
  }

  // ---------------------------------------------------------------------------
  // split and join

  function Count(s: string, c: char): nat {
    if s == [] then 0 else (if s[0] == c then 1 else 0) + Count(s[1..], c)
  }

  /** `s.split(sep)` for a one-character separator; `"".split(sep)` is `[""]`. */
  function Split(s: string, sep: char): (pieces: seq<string>)
    ensures |pieces| == Count(s, sep) + 1
    ensures forall k | 0 <= k < |pieces| :: sep !in pieces[k]
  {
    if s == [] then [""]
    else if s[0] == sep then [""] + Split(s[1..], sep)
    else
      var rest := Split(s[1..], sep);
      [[s[0]] + rest[0]] + rest[1..]
  }

  /** `pieces.join(sep)`. */
  function Join(pieces: seq<string>, sep: string): string {
    if pieces == [] then ""
    else if |pieces| == 1 then pieces[0]
    else pieces[0] + sep + Join(pieces[1..], sep)
  }

  /** Splitting and joining again gives back the original string. */
  lemma {:induction false} JoinSplit(s: string, sep: char)
    ensures Join(Split(s, sep), [sep]) == s
  {
    if s == [] {
    } else if s[0] == sep {
      JoinSplit(s[1..], sep);
      assert s == [sep] + s[1..];
    } else {
      JoinSplit(s[1..], sep);
      var rest := Split(s[1..], sep);
      if |rest| == 1 {
        assert Split(s, sep) == [[s[0]] + rest[0]];
      } else {
        assert Split(s, sep)[1..] == rest[1..];
        assert s == [s[0]] + s[1..];
      }
    }
  }

  lemma {:induction false} JoinSnoc(pieces: seq<string>, last: string, sep: string)
    requires pieces != []
    ensures Join(pieces + [last], sep) == Join(pieces, sep) + sep + last
  {
    if |pieces| == 1 {
      assert pieces + [last] == [pieces[0], last];
    } else {
      assert (pieces + [last])[1..] == pieces[1..] + [last];
      JoinSnoc(pieces[1..], last, sep);
    }
  }
}
