/** The few pieces of JavaScript semantics the request handlers depend on:
    truthiness of request fields, strict equality between values of
    different types, and the string methods `split` and `trim`. */
module Js {

  datatype Option<+T> = None | Some(value: T)

  /** A JavaScript value, as far as the handlers' tests need one.
      Numbers are integers here: no handler test involves NaN or fractions. */
  datatype JsValue = Undefined | Null | Bool(b: bool) | Number(n: int) | Str(s: string)

  /** `typeof v` (with `typeof null == "object"`). */
  function TypeOf(v: JsValue): string
  {
    match v
    case Undefined => "undefined"
    case Null => "object"
    case Bool(_) => "boolean"
    case Number(_) => "number"
    case Str(_) => "string"
  }

  /** `!!v`: the falsy values are undefined, null, false, 0 and "". */
  predicate Truthy(v: JsValue)
    ensures Truthy(v) <==> v !in [Undefined, Null, Bool(false), Number(0), Str("")]
  {
    match v
    case Undefined => false
    case Null => false
    case Bool(b) => b
    case Number(n) => n != 0
    case Str(s) => s != ""
  }

  /** `a === b`: values of different types are never strictly equal, and
      two values of one type are strictly equal exactly when they are the
      same value (there is no NaN and no object here). */
  function StrictEquals(a: JsValue, b: JsValue): (r: bool)
    ensures r <==> a == b
  {
    match (a, b)
    case (Undefined, Undefined) => true
    case (Null, Null) => true
    case (Bool(x), Bool(y)) => x == y
    case (Number(x), Number(y)) => x == y
    case (Str(x), Str(y)) => x == y
    case _ => false
  }

  /** A request-body field that is either missing or a string. */
  function OfField(field: Option<string>): JsValue
  {
    match field
    case None => Undefined
    case Some(s) => Str(s)
  }

  /** A field passes `if (!field)` exactly when it is present and non-empty. */
  predicate Given(field: Option<string>)
    ensures Given(field) <==> field.Some? && field.value != ""
  {
    Truthy(OfField(field))
  }

  // ---------------------------------------------------------------------------
  // String.prototype.split with a one-character separator

  /** `s.split(c)`: the pieces of `s` between occurrences of `c`, in order;
      `"".split(c)` is `[""]`. */
  function Split(s: string, c: char): (parts: seq<string>)
    ensures |parts| >= 1
    ensures forall i :: 0 <= i < |parts| ==> c !in parts[i]
    decreases |s|
  {
    if s == [] then [""]
    else
      var rest := Split(s[1..], c);
      if s[0] == c then [""] + rest
      else [[s[0]] + rest[0]] + rest[1..]
  }

  /** `parts.join(c)`: the inverse of `Split`. */
  function Join(parts: seq<string>, c: char): string
    requires |parts| >= 1
    decreases |parts|
  {
    if |parts| == 1 then parts[0] else parts[0] + [c] + Join(parts[1..], c)
  }

  /** Splitting and joining again gives back the original string. */
  lemma {:induction false} JoinSplit(s: string, c: char)
    ensures Join(Split(s, c), c) == s
    decreases |s|
  {
    if s != [] {
      var rest := Split(s[1..], c);
      JoinSplit(s[1..], c);
      if s[0] == c {
        assert ([""] + rest)[1..] == rest;
      } else {
        var parts := [[s[0]] + rest[0]] + rest[1..];
        assert parts[1..] == rest[1..];
        if |rest| > 1 {
          calc {
            Join(parts, c);
            [s[0]] + rest[0] + [c] + Join(rest[1..], c);
            [s[0]] + (rest[0] + [c] + Join(rest[1..], c));
            [s[0]] + s[1..];
          }
        }
      }
    }
  }

  /** A string without the separator is a single piece. */
  lemma {:induction false} SplitWithoutSeparator(s: string, c: char)
    requires c !in s
    ensures Split(s, c) == [s]
    decreases |s|
  {
    if s != [] {
      assert c !in s[1..] by {
        forall i | 0 <= i < |s[1..]| ensures s[1..][i] != c {
          assert s[1..][i] == s[i + 1];
        }
      }
      SplitWithoutSeparator(s[1..], c);
      assert [s[0]] + s[1..] == s;
    }
  }

  /** A piece without the separator, followed by the separator, splits off
      as the first piece. */
  lemma {:induction false} SplitAfterPiece(a: string, rest: string, c: char)
    requires c !in a
    ensures Split(a + [c] + rest, c) == [a] + Split(rest, c)
    decreases |a|
  {
    var s := a + [c] + rest;
    if a == [] {
      assert s[1..] == rest;
    } else {
      assert c !in a[1..] by {
        forall i | 0 <= i < |a[1..]| ensures a[1..][i] != c {
          assert a[1..][i] == a[i + 1];
        }
      }
      SplitAfterPiece(a[1..], rest, c);
      assert s[1..] == a[1..] + [c] + rest;
      assert [a[0]] + a[1..] == a;
    }
  }

  /** A joined sequence with more than one piece contains the separator right
      after its first piece. */
  lemma JoinHead(parts: seq<string>, c: char)
    requires |parts| > 1
    ensures Join(parts, c) == parts[0] + [c] + Join(parts[1..], c)
  {
  }

  /** The last piece of a join is a suffix of it. */
  lemma {:induction false} JoinEndsWithLast(parts: seq<string>, c: char)
    requires |parts| >= 1
    ensures var j := Join(parts, c); var last := parts[|parts| - 1];
      |last| <= |j| && j[|j| - |last|..] == last
    decreases |parts|
  {
    if |parts| > 1 {
      JoinEndsWithLast(parts[1..], c);
      var tail := Join(parts[1..], c);
      var j := Join(parts, c);
      assert j == (parts[0] + [c]) + tail;
      assert j[|j| - |tail|..] == tail;
    }
  }

  /** A joined sequence with more than one piece ends with the separator
      followed by its last piece. */
  lemma {:induction false} JoinLast(parts: seq<string>, c: char)
    requires |parts| > 1
    ensures Join(parts, c) == Join(parts[..|parts| - 1], c) + [c] + parts[|parts| - 1]
    decreases |parts|
  {
    var init := parts[..|parts| - 1];
    if |parts| > 2 {
      JoinLast(parts[1..], c);
      assert parts[1..][..|parts[1..]| - 1] == init[1..];
      assert Join(init, c) == init[0] + [c] + Join(init[1..], c);
    }
  }

  /** The first piece of `s.split(c)`: the prefix of `s` before the first `c`,
      or all of `s` when `c` does not occur in it. */
  lemma {:induction false} SplitFirstPiece(s: string, c: char)
    ensures var first := Split(s, c)[0];
      && first <= s
      && c !in first
      && (c !in s ==> first == s)
      && (c in s ==> |first| < |s| && s[|first|] == c)
  {
    var parts := Split(s, c);
    JoinSplit(s, c);
    if |parts| > 1 {
      JoinHead(parts, c);
      assert s == parts[0] + ([c] + Join(parts[1..], c));
      assert s[|parts[0]|] == c;
    } else {
      assert s == parts[0];
    }
  }

  /** The last piece of `s.split(c)`: the suffix of `s` after the last `c`,
      or all of `s` when `c` does not occur in it. */
  lemma {:induction false} SplitLastPiece(s: string, c: char)
    ensures var parts := Split(s, c); var last := parts[|parts| - 1];
      && |last| <= |s| && s[|s| - |last|..] == last
      && c !in last
      && (c !in s ==> last == s)
      && (c in s ==> |last| < |s| && s[|s| - |last| - 1] == c)
  {
    var parts := Split(s, c);
    JoinSplit(s, c);
    JoinEndsWithLast(parts, c);
    if c !in s {
      SplitWithoutSeparator(s, c);
    } else {
      assert |parts| > 1;
      var last := parts[|parts| - 1];
      JoinLast(parts, c);
      var init := Join(parts[..|parts| - 1], c);
      assert s == init + [c] + last;
      assert s[|s| - |last| - 1] == c;
    }
  }

  // ---------------------------------------------------------------------------
  // String.prototype.trim

  /** The white-space and line-terminator characters that `trim` removes. */
  const JsSpaces: set<char> := {
    ' ', '\t', '\n', '\U{B}', '\U{C}', '\r', '\U{A0}', '\U{1680}', '\U{2000}',
    '\U{2001}', '\U{2002}', '\U{2003}', '\U{2004}', '\U{2005}', '\U{2006}',
    '\U{2007}', '\U{2008}', '\U{2009}', '\U{200A}', '\U{2028}', '\U{2029}',
    '\U{202F}', '\U{205F}', '\U{3000}', '\U{FEFF}'
  }

  predicate IsJsSpace(ch: char)
  {
    ch in JsSpaces
  }

  /** The number of white-space characters at the start of `s`. */
  function LeadingSpaces(s: string): (n: nat)
    ensures n <= |s|
    ensures forall k :: 0 <= k < n ==> IsJsSpace(s[k])
    ensures n < |s| ==> !IsJsSpace(s[n])
    decreases |s|
  {
    if s != [] && IsJsSpace(s[0]) then
      var n := 1 + LeadingSpaces(s[1..]);
      assert forall k :: 1 <= k < n ==> s[k] == s[1..][k - 1];
      n
    else 0
  }

  /** The number of white-space characters at the end of `s`. */
  function TrailingSpaces(s: string): (n: nat)
    ensures n <= |s|
    ensures forall k :: |s| - n <= k < |s| ==> IsJsSpace(s[k])
    ensures n < |s| ==> !IsJsSpace(s[|s| - n - 1])
    decreases |s|
  {
    if s != [] && IsJsSpace(s[|s| - 1]) then
      var init := s[..|s| - 1];
      var n := 1 + TrailingSpaces(init);
      assert forall k :: |s| - n <= k < |s| - 1 ==> s[k] == init[k];
      n
    else 0
  }

  /** `r` occurs in `s` at offset `i`, with only white space before and
      after it. */
  predicate TrimmedAt(s: string, r: string, i: int)
  {
    && 0 <= i && i + |r| <= |s| && s[i..i + |r|] == r
    && (forall k :: 0 <= k < i ==> IsJsSpace(s[k]))
    && (forall k :: i + |r| <= k < |s| ==> IsJsSpace(s[k]))
  }

  /** `s.trim()`: `s` without its leading and trailing white space. What
      remains neither starts nor ends with white space, and it is empty
      exactly when `s` is all white space. */
  function Trim(s: string): (r: string)
    ensures r == [] || (!IsJsSpace(r[0]) && !IsJsSpace(r[|r| - 1]))
    ensures exists i :: TrimmedAt(s, r, i)
    ensures r == [] <==> forall k :: 0 <= k < |s| ==> IsJsSpace(s[k])
  {
    var i := LeadingSpaces(s);
    if i == |s| then
      assert TrimmedAt(s, [], i);
      []
    else
      var j := |s| - TrailingSpaces(s);
      assert i < j;
      var r := s[i..j];
      assert TrimmedAt(s, r, i);
      assert r[0] == s[i] && r[|r| - 1] == s[j - 1];
      r
  }
}
