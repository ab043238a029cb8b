/**
 * The string operations the dashboard applies to the ticker input box:
 * Python's `str.split(",")`, `str.strip()` (no argument) and `str.upper()`.
 */
module Text {

  /** The separator between tickers in the input box. */
  const Separator: char := ','

  /**
   * `s.split(",")`: the pieces between separators, including empty pieces
   * before, between and after separators; the empty string gives one empty
   * piece.
   */
  function Split(s: string): (r: seq<string>)
    ensures |r| >= 1
    ensures forall piece :: piece in r ==> Separator !in piece
  {
    if s == [] then [""]
    else
      var rest := Split(s[1..]);
      if s[0] == Separator then [""] + rest
      else [[s[0]] + rest[0]] + rest[1..]
  }

  /** `",".join(pieces)`: the inverse of `Split`. */
  function Join(pieces: seq<string>): string
    requires |pieces| >= 1
  {
    if |pieces| == 1 then pieces[0] else pieces[0] + [Separator] + Join(pieces[1..])
  }

  /** Joining the pieces of a split gives back the input. */
  lemma {:induction false} JoinSplit(s: string)
    ensures Join(Split(s)) == s
  {
    if s != [] {
      JoinSplit(s[1..]);
      var rest := Split(s[1..]);
      if s[0] != Separator {
        if |rest| == 1 {
          assert Split(s) == [[s[0]] + rest[0]];
        } else {
          assert Split(s)[1..] == rest[1..];
          assert Join(rest) == rest[0] + [Separator] + Join(rest[1..]);
        }
      } else {
        assert Split(s)[1..] == rest;
      }
    }
  }

  /** Splitting joined separator-free pieces gives back the pieces. */
  lemma {:induction false} SplitJoin(pieces: seq<string>)
    requires |pieces| >= 1
    requires forall piece :: piece in pieces ==> Separator !in piece
    ensures Split(Join(pieces)) == pieces
    decreases |Join(pieces)|
  {
    var head := pieces[0];
    if head == [] {
      if |pieces| > 1 {
        var tail := Join(pieces[1..]);
        assert Join(pieces) == [Separator] + tail;
        SplitJoin(pieces[1..]);
        assert Join(pieces)[1..] == tail;
        assert pieces == [""] + pieces[1..];
      }
    } else {
      var shorter := [head[1..]] + pieces[1..];
      assert head in pieces;
      assert head[0] in head;
      assert forall c :: c in head[1..] ==> c in head;
      assert forall piece :: piece in shorter ==> Separator !in piece;
      assert shorter[1..] == pieces[1..];
      assert Join(pieces) == [head[0]] + Join(shorter);
      SplitJoin(shorter);
      assert Join(pieces)[1..] == Join(shorter);
      assert head[0] != Separator;
      assert head == [head[0]] + head[1..];
      assert pieces == [[head[0]] + head[1..]] + pieces[1..];
    }
  }

  /**
   * Splitting at an explicit separator splits each side independently: the
   * pieces of `a + "," + b` are the pieces of `a` followed by those of `b`.
   */
  lemma {:induction false} SplitAppend(a: string, b: string)
    ensures Split(a + [Separator] + b) == Split(a) + Split(b)
  {
    if a == [] {
      assert a + [Separator] + b == [Separator] + b;
      assert ([Separator] + b)[1..] == b;
    } else {
      var whole := a + [Separator] + b;
      var front := Split(a[1..]);
      assert whole[0] == a[0];
      assert whole[1..] == a[1..] + [Separator] + b;
      SplitAppend(a[1..], b);
      if a[0] == Separator {
        calc {
          Split(whole);
          [""] + (front + Split(b));
          ([""] + front) + Split(b);
        }
      } else {
        calc {
          Split(whole);
          [[a[0]] + (front + Split(b))[0]] + (front + Split(b))[1..];
          { assert (front + Split(b))[1..] == front[1..] + Split(b); }
          [[a[0]] + front[0]] + (front[1..] + Split(b));
          ([[a[0]] + front[0]] + front[1..]) + Split(b);
        }
      }
    }
  }

  /**
   * The characters Python's `str.isspace()` accepts, which `str.strip()`
   * removes: the ASCII whitespace and separator controls, NEL, NBSP and
   * the Unicode space and line/paragraph separators.
   */
  predicate IsSpace(c: char)
  {
    || c == ' ' || ('\t' <= c <= '\r') || ('\U{1C}' <= c <= '\U{1F}')
    || c == '\U{85}' || c == '\U{A0}' || c == '\U{1680}'
    || ('\U{2000}' <= c <= '\U{200A}') || c == '\U{2028}' || c == '\U{2029}'
    || c == '\U{202F}' || c == '\U{205F}' || c == '\U{3000}'
  }

  /** `s.lstrip()`: the suffix of `s` left after dropping leading whitespace. */
  function TrimStart(s: string): (r: string)
    ensures |r| <= |s| && r == s[|s| - |r|..]
    ensures forall k :: 0 <= k < |s| - |r| ==> IsSpace(s[k])
    ensures r == [] || !IsSpace(r[0])
  {
    if s != [] && IsSpace(s[0]) then TrimStart(s[1..]) else s
  }

  /** `s.rstrip()`: the prefix of `s` left after dropping trailing whitespace. */
  function TrimEnd(s: string): (r: string)
    ensures |r| <= |s| && r == s[..|r|]
    ensures forall k :: |r| <= k < |s| ==> IsSpace(s[k])
    ensures r == [] || !IsSpace(r[|r| - 1])
  {
    if s != [] && IsSpace(s[|s| - 1]) then TrimEnd(s[..|s| - 1]) else s
  }

  /**
   * `s.strip()`: `s` without its leading and trailing whitespace. The result
   * is the infix `s[start..start + |r|]`, everything outside it is
   * whitespace, and it neither starts nor ends with whitespace.
   */
  function Strip(s: string): (r: string)
    ensures |r| <= |s|
    ensures r == [] || (!IsSpace(r[0]) && !IsSpace(r[|r| - 1]))
  {
    TrimEnd(TrimStart(s))
  }

  /**
   * What `Strip` removes is whitespace and only that: its result is the
   * infix of `s` starting after the leading whitespace, and every character
   * outside that infix is whitespace.
   */
  lemma StripInfix(s: string)
    ensures var start, r := |s| - |TrimStart(s)|, Strip(s);
      && start + |r| <= |s|
      && r == s[start..start + |r|]
      && (forall k :: 0 <= k < start ==> IsSpace(s[k]))
      && (forall k :: start + |r| <= k < |s| ==> IsSpace(s[k]))
  {
    var t := TrimStart(s);
    var r := TrimEnd(t);
    var start := |s| - |t|;
    assert t == s[start..];
    assert r == t[..|r|];
    assert s[start..start + |r|] == t[..|r|];
    forall k | start + |r| <= k < |s|
      ensures IsSpace(s[k])
    {
      assert s[k] == t[k - start];
    }
  }

  /** Stripping twice is stripping once. */
  lemma StripIdempotent(s: string)
    ensures Strip(Strip(s)) == Strip(s)
  {
    var r := Strip(s);
    if r != [] {
      assert TrimStart(r) == r;
      assert TrimEnd(r) == r;
    }
  }

  /** The ASCII lower-case letters, the ones `UpperChar` changes. */
  predicate IsLowerAscii(c: char)
  {
    'a' <= c <= 'z'
  }

  /** The upper-case form of one character (ASCII letters only). */
  function UpperChar(c: char): (u: char)
    ensures !IsLowerAscii(u)
    ensures IsLowerAscii(c) ==> 'A' <= u <= 'Z' && u as int == c as int - 32
    ensures !IsLowerAscii(c) ==> u == c
  {
    if IsLowerAscii(c) then (c as int - 32) as char else c
  }

  /** `s.upper()`, on ASCII letters: character by character, same length. */
  function Upper(s: string): (r: string)
    ensures |r| == |s|
    ensures forall k :: 0 <= k < |s| ==> r[k] == UpperChar(s[k])
  {
    seq(|s|, k requires 0 <= k < |s| => UpperChar(s[k]))
  }

  /** Upper-casing keeps whitespace where it is, so it never undoes a strip. */
  lemma UpperKeepsStripped(s: string)
    requires Strip(s) == s
    ensures Strip(Upper(s)) == Upper(s)
  {
    var u := Upper(s);
    if s != [] {
      assert !IsSpace(u[0]) && !IsSpace(u[|u| - 1]);
      assert TrimStart(u) == u;
      assert TrimEnd(u) == u;
    }
  }
}
