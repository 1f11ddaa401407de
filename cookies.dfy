/** The CSRF cookie reader: `getCSRFToken` looks up the `csrftoken` entry of the browser's
    cookie string (`document.cookie`), which is passed in here as a parameter. */
module Cookies {
  import opened JsStrings

  /** The cookie name whose value the server expects back in the CSRF header. */
  const CsrfCookieName: string := "csrftoken"

  /** What destructuring can give for the second piece of a segment: a string, or `undefined`
      when the piece is missing; never `null`. */
  type SegmentValue = v: JsValue | !v.Null? witness Undefined

  /** One `;`-separated segment of the cookie string, destructured as `[name, value]`. */
  datatype Entry = Entry(name: string, value: SegmentValue)

  /** `const [name, value] = segment.trim().split('=')`. */
  function ParseSegment(segment: string): Entry
  {
    var parts := Split(Trim(segment), '=');
    Entry(parts[0], if |parts| >= 2 then Str(parts[1]) else Undefined)
  }

  /** The name is the text before the first `=` of the trimmed segment, the value the text
      between its first and second `=`, and `undefined` exactly when the segment holds no `=`.
      Neither holds `=`, and the value holds only characters of the segment. */
  lemma ParseSegmentShape(segment: string)
    ensures var e := ParseSegment(segment);
      && '=' !in e.name && e.name <= Trim(segment)
      && (e.value.Undefined? <==> '=' !in Trim(segment))
      && (e.value.Undefined? ==> e.name == Trim(segment))
      && (e.value.Str? ==> '=' !in e.value.s && e.name + "=" + e.value.s <= Trim(segment))
      && (e.value.Str? ==>
            var n := |e.name| + 1 + |e.value.s|; n == |Trim(segment)| || Trim(segment)[n] == '=')
      && (e.value.Str? ==> forall c :: c in e.value.s ==> c in segment)
  {
    var t := Trim(segment);
    SplitFirstPieces(t, '=');
    SplitWithoutSeparator(t, '=');
    SplitPieces(t, '=');
    TrimShape(segment);
  }

  /** The name of a segment is exactly the trimmed text before its first `=`. */
  lemma NameEndsAtFirstEquals(segment: string, k: nat)
    requires k < |Trim(segment)| && Trim(segment)[k] == '='
    requires forall j :: 0 <= j < k ==> Trim(segment)[j] != '='
    ensures |ParseSegment(segment).name| == k
  {
    var t, name := Trim(segment), ParseSegment(segment).name;
    ParseSegmentShape(segment);
    assert '=' in t;
    assert |name| < |t| && t[|name|] == '=';
    assert forall j :: 0 <= j < |name| ==> name[j] == t[j];
  }

  /** Every segment of a cookie string, parsed. */
  function Entries(segments: seq<string>): (entries: seq<Entry>)
    ensures |entries| == |segments|
  {
    if segments == [] then [] else [ParseSegment(segments[0])] + Entries(segments[1..])
  }

  /** The `i`-th entry is the `i`-th segment, parsed. */
  lemma {:induction false} EntriesAt(segments: seq<string>, i: nat)
    requires i < |segments|
    ensures Entries(segments)[i] == ParseSegment(segments[i])
  {
    if i > 0 {
      EntriesAt(segments[1..], i - 1);
    }
  }

  /** Parsing two runs of segments one after the other. */
  lemma {:induction false} EntriesAppend(xs: seq<string>, ys: seq<string>)
    ensures Entries(xs + ys) == Entries(xs) + Entries(ys)
  {
    if xs == [] {
      assert xs + ys == ys;
    } else {
      assert (xs + ys)[0] == xs[0] && (xs + ys)[1..] == xs[1..] + ys;
      EntriesAppend(xs[1..], ys);
    }
  }

  /** The recursive reading of the loop over cookie segments: the value of the first entry
      named exactly `csrftoken`, and `null` when there is none. */
  function LookupCsrf(entries: seq<Entry>): JsValue
  {
    if entries == [] then Null
    else if entries[0].name == CsrfCookieName then entries[0].value
    else LookupCsrf(entries[1..])
  }

  /** What `getCSRFToken` returns for a given `document.cookie`. */
  function CsrfToken(cookie: string): JsValue
  {
    LookupCsrf(Entries(Split(cookie, ';')))
  }

  /** `getCSRFToken`: splits the cookie string on `;` and returns, from the first segment
      named `csrftoken`, its value (possibly `undefined`); `null` when no segment matches. */
  method GetCSRFToken(cookie: string) returns (r: JsValue)
    ensures r == CsrfToken(cookie)
  {
    var cookies := Split(cookie, ';');
    ghost var entries := Entries(cookies);
    for i := 0 to |cookies|
      invariant LookupCsrf(entries[i..]) == LookupCsrf(entries)
    {
      assert entries[i..][1..] == entries[i + 1..];
      EntriesAt(cookies, i);
      var entry := ParseSegment(cookies[i]);
      var name, value := entry.name, entry.value;
      if name == CsrfCookieName {
        return value;
      }
    }
    return Null;
  }

  /** The lookup yields the value of the first matching entry, whatever follows it. */
  lemma {:induction false} LookupFirstMatch(entries: seq<Entry>, i: nat)
    requires i < |entries| && entries[i].name == CsrfCookieName
    requires forall j :: 0 <= j < i ==> entries[j].name != CsrfCookieName
    ensures LookupCsrf(entries) == entries[i].value
  {
    if i > 0 {
      assert entries[0].name != CsrfCookieName;
      assert entries[1..][i - 1] == entries[i];
      LookupFirstMatch(entries[1..], i - 1);
    }
  }

  /** Over parsed segments, the lookup is `null` exactly when no entry is named `csrftoken`. */
  lemma {:induction false} LookupNullIffNoMatch(entries: seq<Entry>)
    ensures LookupCsrf(entries) == Null <==>
      forall i :: 0 <= i < |entries| ==> entries[i].name != CsrfCookieName
  {
    if entries != [] {
      assert forall i :: 1 <= i < |entries| ==> entries[i] == entries[1..][i - 1];
      LookupNullIffNoMatch(entries[1..]);
    }
  }

  /** `getCSRFToken` returns `null` exactly when no segment's name, the trimmed text before
      its first `=`, is `csrftoken`. */
  lemma CsrfTokenNullIffNoMatch(cookie: string)
    ensures CsrfToken(cookie) == Null ==>
      forall i :: 0 <= i < |Split(cookie, ';')| ==> ParseSegment(Split(cookie, ';')[i]).name != CsrfCookieName
    ensures CsrfToken(cookie) != Null ==>
      exists i :: 0 <= i < |Split(cookie, ';')| && ParseSegment(Split(cookie, ';')[i]).name == CsrfCookieName
  {
    var segments := Split(cookie, ';');
    var entries := Entries(segments);
    assert CsrfToken(cookie) == LookupCsrf(entries);
    LookupNullIffNoMatch(entries);
    if LookupCsrf(entries) == Null {
      forall i | 0 <= i < |segments| ensures ParseSegment(segments[i]).name != CsrfCookieName {
        EntriesAt(segments, i);
      }
    } else {
      var i :| 0 <= i < |entries| && entries[i].name == CsrfCookieName;
      EntriesAt(segments, i);
    }
  }

  /** A non-null lookup result is the value of one of the entries. */
  lemma {:induction false} LookupFromEntry(entries: seq<Entry>)
    requires LookupCsrf(entries) != Null
    ensures exists i :: 0 <= i < |entries| && LookupCsrf(entries) == entries[i].value
  {
    if entries[0].name != CsrfCookieName {
      LookupFromEntry(entries[1..]);
      var i :| 0 <= i < |entries[1..]| && LookupCsrf(entries[1..]) == entries[1..][i].value;
      assert entries[1..][i] == entries[i + 1];
    }
  }

  /** Looking up in two runs of entries: the first run decides whenever it has a match. */
  lemma {:induction false} LookupAppend(xs: seq<Entry>, ys: seq<Entry>)
    ensures LookupCsrf(xs + ys) == if LookupCsrf(xs) != Null then LookupCsrf(xs) else LookupCsrf(ys)
  {
    if xs == [] {
      assert xs + ys == ys;
    } else {
      assert (xs + ys)[0] == xs[0];
      assert (xs + ys)[1..] == xs[1..] + ys;
      LookupAppend(xs[1..], ys);
    }
  }

  /** A CSRF value read from the cookie string never holds `;` or `=`. */
  lemma CsrfValueHasNoSeparators(cookie: string)
    requires CsrfToken(cookie).Str?
    ensures ';' !in CsrfToken(cookie).s && '=' !in CsrfToken(cookie).s
  {
    var segments := Split(cookie, ';');
    var entries := Entries(segments);
    LookupFromEntry(entries);
    var i :| 0 <= i < |entries| && CsrfToken(cookie) == entries[i].value;
    EntriesAt(segments, i);
    ParseSegmentShape(segments[i]);
    SplitPieces(cookie, ';');
    assert ';' !in segments[i];
  }

  /** Appending further cookies after `;` does not change a CSRF value already found:
      later `csrftoken` duplicates are ignored. When none was found, the appended cookies decide. */
  lemma CookieAppend(first: string, rest: string)
    ensures CsrfToken(first + ";" + rest) ==
      if CsrfToken(first) != Null then CsrfToken(first) else CsrfToken(rest)
  {
    var xs, ys := Split(first, ';'), Split(rest, ';');
    SplitAround(first, rest, ';');
    EntriesAppend(xs, ys);
    LookupAppend(Entries(xs), Entries(ys));
  }

  /** In a segment `name=value` whose name holds no `=` and does not start with white space,
      the parsed name is that name. */
  lemma PairName(name: string, value: string)
    requires '=' !in name && name != [] && !IsWhiteSpace(name[0])
    ensures ParseSegment(name + "=" + value).name == name
  {
    var segment := name + "=" + value;
    var n := |name|;
    assert segment[n] == '=';
    TrimKeepsPrefix(segment, n);
    var t := Trim(segment);
    assert t[n] == segment[n];
    assert forall j :: 0 <= j < n ==> t[j] == segment[j] == name[j];
    assert forall j :: 0 <= j < n ==> t[j] != '=' by {
      forall j | 0 <= j < n ensures t[j] != '=' {
        assert name[j] in name;
      }
    }
    NameEndsAtFirstEquals(segment, n);
    ParseSegmentShape(segment);
    assert ParseSegment(segment).name == t[..n] == name;
  }

  /** When, besides, the value holds no `=` and does not end with white space, the parsed
      value is that value. */
  lemma PairValue(name: string, value: string)
    requires '=' !in name && name != [] && !IsWhiteSpace(name[0])
    requires '=' !in value && (value == [] || !IsWhiteSpace(value[|value| - 1]))
    ensures ParseSegment(name + "=" + value).value == Str(value)
  {
    var segment := name + "=" + value;
    assert segment[|segment| - 1] == if value == [] then '=' else value[|value| - 1];
    TrimKeepsPrefix(segment, |segment| - 1);
    assert Trim(segment) == segment;
    assert segment == Join([name, value], '=');
    JoinThenSplit([name, value], '=');
  }

  /** A cookie string with no `;` is a single segment: its value when the segment is named
      `csrftoken`, and `null` otherwise. */
  lemma SingleSegment(segment: string)
    requires ';' !in segment
    ensures CsrfToken(segment) ==
      if ParseSegment(segment).name == CsrfCookieName then ParseSegment(segment).value else Null
  {
    SplitWithoutSeparator(segment, ';');
    var entry := ParseSegment(segment);
    assert [segment][1..] == [];
    assert Entries([segment]) == [entry];
    assert [entry][1..] == [] && LookupCsrf([]) == Null;
    assert LookupCsrf([entry]) == if entry.name == CsrfCookieName then entry.value else Null;
  }

  /** A cookie string that is one `name=value` pair, with a name that holds no `=` and does
      not start with white space, yields a CSRF value exactly when that name is `csrftoken`
      character for character. The value is then the pair's value when that holds no `=`
      and does not end with white space; otherwise it is trimmed, or cut at its first `=`. */
  lemma SinglePair(name: string, value: string)
    requires ';' !in name && '=' !in name && ';' !in value
    requires name != [] && !IsWhiteSpace(name[0])
    ensures CsrfToken(name + "=" + value) != Null <==> name == CsrfCookieName
    ensures name == CsrfCookieName && '=' !in value && (value == [] || !IsWhiteSpace(value[|value| - 1]))
      ==> CsrfToken(name + "=" + value) == Str(value)
  {
    var segment := name + "=" + value;
    assert ';' !in segment by {
      assert forall c :: c in segment ==> c in name || c == '=' || c in value;
    }
    SingleSegment(segment);
    PairName(name, value);
    if name == CsrfCookieName && '=' !in value && (value == [] || !IsWhiteSpace(value[|value| - 1])) {
      PairValue(name, value);
    }
  }

  /** A blank before `=` makes the name `"csrftoken "`, which is not the cookie's name: the
      single pair `csrftoken =<value>` yields `null`. */
  lemma BlankBeforeEqualsDoesNotMatch(value: string)
    requires ';' !in value
    ensures CsrfToken("csrftoken =" + value) == Null
  {
    var name := "csrftoken ";
    assert ';' !in name && '=' !in name;
    SinglePair(name, value);
    assert name + "=" + value == "csrftoken =" + value;
  }

  /** An empty first `csrftoken` entry decides the result: `csrftoken=;<rest>` yields the
      empty string, which is falsy, whatever `csrftoken` entries `rest` holds. */
  lemma EmptyFirstValueShadowsLater(rest: string)
    ensures CsrfToken(CsrfCookieName + "=" + ";" + rest) == Str("")
    ensures !Truthy(CsrfToken(CsrfCookieName + "=" + ";" + rest))
  {
    var first := CsrfCookieName + "=";
    assert ';' !in CsrfCookieName && '=' !in CsrfCookieName && !IsWhiteSpace(CsrfCookieName[0]);
    SinglePair(CsrfCookieName, "");
    assert first == CsrfCookieName + "=" + "";
    CookieAppend(first, rest);
  }
}
