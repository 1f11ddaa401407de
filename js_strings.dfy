/** The few pieces of JavaScript string semantics the API client relies on:
    `String.prototype.split` with a one-character separator, `String.prototype.trim`,
    and the truthiness test that `if (x)` applies to a string-or-null value. */
module JsStrings {

  /** A value that may be JavaScript `null`, `undefined` or a string. */
  datatype JsValue = Null | Undefined | Str(s: string)

  /** `if (v)` on such a value: `null`, `undefined` and `""` are falsy, every other string is truthy. */
  predicate Truthy(v: JsValue) {
    v.Str? && v.s != ""
  }

  /** The code points that `trim` removes: ECMAScript's WhiteSpace (tab, vertical tab, form feed,
      space, no-break space, byte order mark and the Space_Separator category) and LineTerminator
      (line feed, carriage return, line and paragraph separator). */
  predicate IsWhiteSpace(c: char) {
    || c == '\t' || c == '\n' || c == '\U{000B}' || c == '\U{000C}' || c == '\r'
    || c == ' ' || c == '\U{00A0}' || c == '\U{1680}'
    || ('\U{2000}' <= c <= '\U{200A}')
    || c == '\U{2028}' || c == '\U{2029}' || c == '\U{202F}' || c == '\U{205F}'
    || c == '\U{3000}' || c == '\U{FEFF}'
  }

  /** `s.split(d)`: the pieces of `s` between occurrences of `d`; there is always at least one. */
  function Split(s: string, d: char): (r: seq<string>)
    ensures |r| >= 1
  {
    if s == [] then [""]
    else
      var rest := Split(s[1..], d);
      if s[0] == d then [""] + rest
      else [[s[0]] + rest[0]] + rest[1..]
  }

  /** No piece holds the separator, and every character of every piece comes from the string
      that was split. */
  lemma {:induction false} SplitPieces(s: string, d: char)
    ensures forall i :: 0 <= i < |Split(s, d)| ==> d !in Split(s, d)[i]
    ensures forall i, c :: 0 <= i < |Split(s, d)| && c in Split(s, d)[i] ==> c in s
  {
    if s != [] {
      SplitPieces(s[1..], d);
      assert forall c :: c in s[1..] ==> c in s;
    }
  }

  /** There is exactly one piece, the whole string, when and only when the separator does
      not occur. */
  lemma {:induction false} SplitWithoutSeparator(s: string, d: char)
    ensures d !in s <==> |Split(s, d)| == 1
    ensures d !in s ==> Split(s, d) == [s]
  {
    if s != [] {
      SplitWithoutSeparator(s[1..], d);
      assert s == [s[0]] + s[1..];
      if s[0] != d && |Split(s, d)| == 1 {
        assert |Split(s[1..], d)| == 1;
      }
    }
  }

  /** `pieces.join(d)`: the inverse of `Split`, used only to state what `Split` computes. */
  function Join(pieces: seq<string>, d: char): string
  {
    if |pieces| == 0 then ""
    else if |pieces| == 1 then pieces[0]
    else pieces[0] + [d] + Join(pieces[1..], d)
  }

  /** Joining the pieces of a split with the same separator gives back the string. */
  lemma {:induction false} SplitThenJoin(s: string, d: char)
    ensures Join(Split(s, d), d) == s
  {
    if s != [] {
      var rest := Split(s[1..], d);
      SplitThenJoin(s[1..], d);
      if s[0] == d {
        assert Split(s, d) == [""] + rest;
        assert ([""] + rest)[1..] == rest;
      } else if |rest| == 1 {
        assert Split(s, d) == [[s[0]] + rest[0]];
      } else {
        var r := Split(s, d);
        assert r == [[s[0]] + rest[0]] + rest[1..];
        assert r[1..] == rest[1..];
        assert Join(rest, d) == rest[0] + [d] + Join(rest[1..], d);
        assert s == [s[0]] + s[1..];
      }
    }
  }

  /** Splitting at a separator placed between two strings splits each side on its own. */
  lemma {:induction false} SplitAround(a: string, b: string, d: char)
    ensures Split(a + [d] + b, d) == Split(a, d) + Split(b, d)
  {
    var s := a + [d] + b;
    if a == [] {
      assert s == [d] + b && s[1..] == b;
    } else {
      assert s[0] == a[0] && s[1..] == a[1..] + [d] + b;
      SplitAround(a[1..], b, d);
      var restA, restB := Split(a[1..], d), Split(b, d);
      var rest := restA + restB;
      assert Split(s, d) == if a[0] == d then [""] + rest else [[a[0]] + rest[0]] + rest[1..];
      if a[0] != d {
        assert rest[0] == restA[0];
        assert rest[1..] == restA[1..] + restB;
      }
    }
  }

  /** Splitting a join of separator-free pieces gives back the pieces. */
  lemma {:induction false} JoinThenSplit(pieces: seq<string>, d: char)
    requires |pieces| >= 1
    requires forall i :: 0 <= i < |pieces| ==> d !in pieces[i]
    ensures Split(Join(pieces, d), d) == pieces
  {
    SplitWithoutSeparator(pieces[0], d);
    if |pieces| > 1 {
      JoinThenSplit(pieces[1..], d);
      SplitAround(pieces[0], Join(pieces[1..], d), d);
      assert pieces == [pieces[0]] + pieces[1..];
    }
  }

  /** The first piece of a split is a prefix of the string; when there is a second piece, the
      string starts with the first piece, the separator and the second piece, followed by its
      end or by another separator. */
  lemma SplitFirstPieces(s: string, d: char)
    ensures Split(s, d)[0] <= s
    ensures var r := Split(s, d); |r| >= 2 ==>
      && r[0] + [d] + r[1] <= s
      && var n := |r[0]| + 1 + |r[1]|; n == |s| || s[n] == d
  {
    var r := Split(s, d);
    SplitThenJoin(s, d);
    if |r| >= 2 {
      var tail := Join(r[1..], d);
      assert s == r[0] + [d] + tail;
      if |r| > 2 {
        assert r[1..][1..] == r[2..];
        assert tail == r[1] + [d] + Join(r[2..], d);
      }
    }
  }

  /** `s.trimStart()`: `s` without its leading white space. */
  function TrimStart(s: string): string
  {
    if s != [] && IsWhiteSpace(s[0]) then TrimStart(s[1..]) else s
  }

  /** `trimStart` keeps a suffix, drops only white space, and stops at a non-blank. */
  lemma {:induction false} TrimStartShape(s: string)
    ensures var r := TrimStart(s);
      && |r| <= |s| && r == s[|s| - |r|..]
      && (forall k :: 0 <= k < |s| - |r| ==> IsWhiteSpace(s[k]))
      && (r != [] ==> !IsWhiteSpace(r[0]))
  {
    if s != [] && IsWhiteSpace(s[0]) {
      TrimStartShape(s[1..]);
      assert forall k :: 1 <= k < |s| ==> s[k] == s[1..][k - 1];
    }
  }

  /** `s.trimEnd()`: `s` without its trailing white space. */
  function TrimEnd(s: string): string
  {
    if s != [] && IsWhiteSpace(s[|s| - 1]) then TrimEnd(s[..|s| - 1]) else s
  }

  /** `trimEnd` keeps a prefix, drops only white space, and stops at a non-blank. */
  lemma {:induction false} TrimEndShape(s: string)
    ensures var r := TrimEnd(s);
      && |r| <= |s| && r == s[..|r|]
      && (forall k :: |r| <= k < |s| ==> IsWhiteSpace(s[k]))
      && (r != [] ==> !IsWhiteSpace(r[|r| - 1]))
  {
    if s != [] && IsWhiteSpace(s[|s| - 1]) {
      TrimEndShape(s[..|s| - 1]);
    }
  }

  /** `s.trim()`: the slice of `s` left after dropping white space at both ends. */
  function Trim(s: string): string
  {
    TrimEnd(TrimStart(s))
  }

  /** What `trim` leaves neither starts nor ends with white space, holds no character that the
      input lacks, and is empty exactly when the input is all white space. */
  lemma TrimShape(s: string)
    ensures var r := Trim(s); r != [] ==> !IsWhiteSpace(r[0]) && !IsWhiteSpace(r[|r| - 1])
    ensures forall c :: c in Trim(s) ==> c in s
    ensures (forall k :: 0 <= k < |s| ==> IsWhiteSpace(s[k])) <==> Trim(s) == []
  {
    var t := TrimStart(s);
    var r := TrimEnd(t);
    TrimStartShape(s);
    TrimEndShape(t);
    var i := |s| - |t|;
    assert r == s[i..i + |r|];
    forall c | c in r ensures c in s {
      var j :| 0 <= j < |r| && r[j] == c;
      assert s[i + j] == c;
    }
    // An all-blank remainder after TrimStart would start with white space, so it is empty.
    assert r == [] ==> t == [];
  }

  /** A string that starts with a character other than white space keeps, under `trim`,
      every character up to any later non-blank one. */
  lemma TrimKeepsPrefix(s: string, k: nat)
    requires k < |s| && !IsWhiteSpace(s[0]) && !IsWhiteSpace(s[k])
    ensures |Trim(s)| > k && Trim(s)[..k + 1] == s[..k + 1]
  {
    assert TrimStart(s) == s;
    TrimEndShape(s);
  }
}
