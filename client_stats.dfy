// The stats page of public/script.js: `viewStats` navigates to
// `/code/<shortCode>`, and `initStatsPage` takes the code back as the last
// `/`-separated segment of the path, refusing it when it is empty or equal to
// "code". As written, the second test also refuses the valid short code
// "code" itself; `StatsCode` is the corrected extraction the rest of the
// model uses, `StatsCodeAsWritten` the one in the source.

module StatsPage {
  import opened Wrappers
  import opened ShortCodes

  /** `s.split('/')`: the pieces between separators, at least one. */
  function Split(s: string): (parts: seq<string>)
    ensures |parts| >= 1
    ensures forall i :: 0 <= i < |parts| ==> '/' !in parts[i]
  {
    if s == [] then [[]]
    else
      var rest := Split(s[1..]);
      if s[0] == '/' then [[]] + rest
      else [[s[0]] + rest[0]] + rest[1..]
  }

  /** `parts.join('/')`, the inverse of `Split`. */
  function Join(parts: seq<string>): string
    requires |parts| >= 1
  {
    if |parts| == 1 then parts[0] else parts[0] + "/" + Join(parts[1..])
  }

  /** Splitting loses nothing: joining the pieces again gives the path. */
  lemma {:induction false} JoinSplit(s: string)
    ensures Join(Split(s)) == s
  {
    if s != [] {
      var rest := Split(s[1..]);
      JoinSplit(s[1..]);
      assert s == [s[0]] + s[1..];
      if s[0] == '/' {
        assert Split(s)[1..] == rest;
      } else if |rest| > 1 {
        assert Split(s)[1..] == rest[1..];
        assert Join(rest) == rest[0] + "/" + Join(rest[1..]);
      }
    }
  }

  /** A separator-free prefix joins the first piece. */
  lemma {:induction false} SplitPlain(a: string, t: string)
    requires '/' !in a
    ensures Split(a + t) == [a + Split(t)[0]] + Split(t)[1..]
  {
    if a == [] {
      assert a + t == t;
      assert a + Split(t)[0] == Split(t)[0];
      assert Split(t) == [Split(t)[0]] + Split(t)[1..];
    } else {
      assert (a + t)[1..] == a[1..] + t;
      assert (a + t)[0] == a[0] && a[0] != '/';
      SplitPlain(a[1..], t);
      var rest := Split(a[1..] + t);
      assert rest[0] == a[1..] + Split(t)[0] && rest[1..] == Split(t)[1..];
      assert Split(a + t) == [[a[0]] + rest[0]] + rest[1..];
      assert [a[0]] + (a[1..] + Split(t)[0]) == a + Split(t)[0];
    }
  }

  /** `viewStats(shortCode)`: the page address of a code. */
  function StatsPath(code: string): string
  {
    "/code/" + code
  }

  lemma SplitStatsPath(code: string)
    requires '/' !in code
    ensures Split(StatsPath(code)) == ["", "code", code]
  {
    SplitPlain(code, "");
    assert code + "" == code;
    assert Split(code) == [code];
    assert ("/" + code)[0] == '/' && ("/" + code)[1..] == code;
    assert Split("/" + code) == ["", code];
    SplitPlain("code", "/" + code);
    assert "code" + "" == "code";
    assert Split("code" + ("/" + code)) == ["code", code];
    var p := "code" + ("/" + code);
    assert StatsPath(code) == "/" + p;
    assert ("/" + p)[0] == '/' && ("/" + p)[1..] == p;
  }

  /** The last path segment, `pathParts[pathParts.length - 1]`. */
  function LastSegment(path: string): (seg: string)
    ensures '/' !in seg
  {
    var parts := Split(path);
    parts[|parts| - 1]
  }

  /** Joining peels off the last piece after its separator. */
  lemma {:induction false} JoinLast(parts: seq<string>)
    requires |parts| > 1
    ensures Join(parts) == Join(parts[..|parts| - 1]) + "/" + parts[|parts| - 1]
  {
    if |parts| > 2 {
      JoinLast(parts[1..]);
      assert parts[1..][..|parts| - 2] == parts[..|parts| - 1][1..];
    }
  }

  /** The segment really is what follows the last separator. */
  lemma LastSegmentIsSuffix(path: string)
    ensures |LastSegment(path)| <= |path|
    ensures path[|path| - |LastSegment(path)|..] == LastSegment(path)
    ensures |LastSegment(path)| < |path| ==> path[|path| - |LastSegment(path)| - 1] == '/'
  {
    var parts := Split(path);
    JoinSplit(path);
    if |parts| > 1 {
      JoinLast(parts);
      var front := Join(parts[..|parts| - 1]) + "/";
      assert path == front + LastSegment(path);
      assert path[|front| - 1] == '/';
    }
  }

  /** Whatever precedes the last separator, the segment after it is read. */
  lemma LastSegmentAfterSeparator(prefix: string, seg: string)
    requires '/' !in seg
    ensures LastSegment(prefix + "/" + seg) == seg
  {
    var path := prefix + "/" + seg;
    var last := LastSegment(path);
    LastSegmentIsSuffix(path);
    assert path[|path| - |seg| - 1] == '/';
    assert path[|path| - |seg|..] == seg;
  }

  /** `initStatsPage` as written: the last segment, refused when it is empty
      or equals "code". */
  function StatsCodeAsWritten(path: string): (r: Option<string>)
    ensures r.Some? ==> r.value == LastSegment(path) && r.value != "" && r.value != "code"
    ensures r.None? ==> LastSegment(path) in {"", "code"}
  {
    var seg := LastSegment(path);
    if seg != "" && seg != "code" then Some(seg) else None
  }

  /** The discrepancy: "code" is a valid short code, yet its own stats page
      refuses it; every other code without a separator comes back intact. */
  lemma StatsCodeAsWrittenRefusesCode()
    ensures IsValidCode("code")
    ensures StatsCodeAsWritten(StatsPath("code")) == None
  {
    SplitStatsPath("code");
  }

  lemma StatsCodeAsWrittenOtherCodes(code: string)
    requires code != "" && code != "code" && '/' !in code
    ensures StatsCodeAsWritten(StatsPath(code)) == Some(code)
  {
    SplitStatsPath(code);
  }

  /** The corrected extraction: "code" is refused only when it is the route
      prefix itself (a path with no segment after it), not when it is the
      code that follows `/code/`. */
  function StatsCode(path: string): (r: Option<string>)
    ensures r.None? <==> LastSegment(path) == "" || (LastSegment(path) == "code" && |Split(path)| <= 2)
    ensures r.Some? ==> r.value == LastSegment(path)
  {
    var parts := Split(path);
    var seg := parts[|parts| - 1];
    if seg != "" && (seg != "code" || |parts| > 2) then Some(seg) else None
  }

  /** Round trip with `viewStats`: every non-empty code without a separator
      (every valid short code among them) is read back from its page path. */
  lemma StatsCodeOfStatsPath(code: string)
    requires code != "" && '/' !in code
    ensures StatsCode(StatsPath(code)) == Some(code)
  {
    SplitStatsPath(code);
  }

  lemma StatsCodeRefusesBarePaths()
    ensures StatsCode("/code") == None
    ensures StatsCode("/code/") == None
  {
    SplitPlain("code", "");
    assert "code" + "" == "code";
    assert "/code" == "/" + "code";
    assert Split("/code") == [[]] + Split("code");
    SplitPlain("code", "/");
    assert "/code/" == "/" + ("code" + "/");
    assert Split("/") == [[]] + Split("");
    assert Split("/code/") == [[]] + Split("code" + "/");
  }

  /** Valid short codes never hold a separator, so each one survives the trip. */
  lemma ValidCodesRoundTrip(code: string)
    requires IsValidCode(code)
    ensures StatsCode(StatsPath(code)) == Some(code)
  {
    assert '/' !in code by {
      forall i | 0 <= i < |code| ensures code[i] != '/' {
        assert IsCodeChar(code[i]);
      }
    }
    StatsCodeOfStatsPath(code);
  }
}
