/**
 The file name of the `/api/download` response: the video title with
 every character outside ASCII `\w`, JavaScript whitespace and `-`
 removed, then trimmed, with "video" when nothing is left; it is sent as
 `<title>.mp4` in a quoted `Content-Disposition` parameter.
 */
module Title {
  import opened Js
  import opened Sequences

  /** `\w` without the `u` flag: ASCII letters, digits and `_` only. */
  predicate IsWordChar(c: char) {
    ('A' <= c <= 'Z') || ('a' <= c <= 'z') || ('0' <= c <= '9') || c == '_'
  }

  /**
   `\s`, which is also what `String.prototype.trim` removes: the
   ECMAScript WhiteSpace and LineTerminator code points.
   */
  predicate IsSpace(c: char) {
    var n := c as int;
    n == 0x09 || n == 0x0A || n == 0x0B || n == 0x0C || n == 0x0D || n == 0x20
    || n == 0xA0 || n == 0x1680 || (0x2000 <= n <= 0x200A) || n == 0x2028 || n == 0x2029
    || n == 0x202F || n == 0x205F || n == 0x3000 || n == 0xFEFF
  }

  /** The characters `/[^\w\s-]/g` does not remove. */
  predicate Kept(c: char) {
    IsWordChar(c) || IsSpace(c) || c == '-'
  }

  /** `title.replace(/[^\w\s-]/g, '')` */
  function Strip(t: string): (r: string)
    ensures forall c :: c in r <==> c in t && Kept(c)
    ensures forall c :: Count(r, c) == if Kept(c) then Count(t, c) else 0
    ensures IsSubsequence(r, t)
    ensures (forall c :: c in t ==> Kept(c)) ==> r == t
  {
    if t == [] then []
    else
      var rest := Strip(t[1..]);
      assert forall c :: c in t <==> c == t[0] || c in t[1..];
      if Kept(t[0]) then
        assert ([t[0]] + rest)[1..] == rest;
        assert [t[0]] + t[1..] == t;
        [t[0]] + rest
      else
        SubsequenceWeaken(rest, t[1..], t[0]);
        assert [t[0]] + t[1..] == t;
        rest
  }

  /** Drops the leading whitespace. */
  function TrimStart(s: string): (r: string)
    ensures |r| <= |s| && r == s[|s| - |r|..]
    ensures forall k :: 0 <= k < |s| - |r| ==> IsSpace(s[k])
    ensures r != [] ==> !IsSpace(r[0])
  {
    if s != [] && IsSpace(s[0]) then TrimStart(s[1..]) else s
  }

  /** Drops the trailing whitespace. */
  function TrimEnd(s: string): (r: string)
    ensures |r| <= |s| && r == s[..|r|]
    ensures forall k :: |r| <= k < |s| ==> IsSpace(s[k])
    ensures r != [] ==> !IsSpace(r[|r| - 1])
  {
    if s != [] && IsSpace(s[|s| - 1]) then TrimEnd(s[..|s| - 1]) else s
  }

  /**
   `r` is the slice of `s` at index `i`, and everything of `s` before and
   after that slice is whitespace.
   */
  ghost predicate TrimmedSlice(s: string, r: string, i: int) {
    && SliceAt(s, r, i)
    && (forall k :: 0 <= k < i ==> IsSpace(s[k]))
    && (forall k :: i + |r| <= k < |s| ==> IsSpace(s[k]))
  }

  /**
   `String.prototype.trim`: the slice of `s` left after removing the
   whitespace at both ends.
   */
  function Trim(s: string): (r: string)
    ensures exists i :: TrimmedSlice(s, r, i)
    ensures r != [] ==> !IsSpace(r[0]) && !IsSpace(r[|r| - 1])
    ensures r == [] <==> forall c :: c in s ==> IsSpace(c)
    ensures s != [] && !IsSpace(s[0]) && !IsSpace(s[|s| - 1]) ==> r == s
  {
    var a := TrimStart(s);
    var r := TrimEnd(a);
    TrimIsSlice(s);
    TrimEmpty(s);
    assert r != [] ==> r[0] == a[0];
    r
  }

  lemma TrimIsSlice(s: string)
    ensures TrimmedSlice(s, TrimEnd(TrimStart(s)), |s| - |TrimStart(s)|)
  {
    var a := TrimStart(s);
    SliceOfSuffix(s, a, TrimEnd(a));
  }

  /** A prefix `r` of a suffix `a` of `s`, with only whitespace cut off, is a trimmed slice. */
  lemma SliceOfSuffix(s: string, a: string, r: string)
    requires |a| <= |s| && a == s[|s| - |a|..] && (forall k :: 0 <= k < |s| - |a| ==> IsSpace(s[k]))
    requires |r| <= |a| && r == a[..|r|] && (forall k :: |r| <= k < |a| ==> IsSpace(a[k]))
    ensures TrimmedSlice(s, r, |s| - |a|)
  {
    var off := |s| - |a|;
    assert r == s[off..][..|r|];
    assert forall k :: off <= k < |s| ==> s[k] == a[k - off];
  }

  lemma TrimEmpty(s: string)
    ensures TrimEnd(TrimStart(s)) == [] <==> forall c :: c in s ==> IsSpace(c)
  {
    var a := TrimStart(s);
    var r := TrimEnd(a);
    if r == [] {
      assert a == [];
      assert forall k :: 0 <= k < |s| ==> IsSpace(s[k]);
    } else {
      assert a[0] == s[|s| - |a|];
    }
  }

  /** `trim` removes only whitespace: every other character keeps its count. */
  lemma TrimKeepsCount(s: string, c: char)
    requires !IsSpace(c)
    ensures Count(Trim(s), c) == Count(s, c)
  {
    var r := Trim(s);
    var i :| TrimmedSlice(s, r, i);
    SliceCount(s, r, i, c);
  }

  lemma SliceCount(s: string, r: string, i: int, c: char)
    requires TrimmedSlice(s, r, i) && !IsSpace(c)
    ensures Count(r, c) == Count(s, c)
  {
    var j := i + |r|;
    var pre, post := s[..i], s[j..];
    assert s == pre + r + post;
    assert forall k :: 0 <= k < |pre| ==> pre[k] == s[k];
    assert forall k :: 0 <= k < |post| ==> post[k] == s[j + k];
    assert c !in pre && c !in post;
    CountConcat(pre, r, c);
    CountConcat(pre + r, post, c);
  }

  /** What the title falls back to when nothing of it survives. */
  const Fallback: string := "video"

  /** `title.replace(/[^\w\s-]/g, '').trim() || 'video'` */
  function Sanitize(title: string): (r: string)
    ensures r != []
    ensures forall c :: c in r ==> Kept(c)
    ensures '"' !in r
    ensures !IsSpace(r[0]) && !IsSpace(r[|r| - 1])
    ensures (forall c :: c in title ==> !IsWordChar(c) && c != '-') ==> r == Fallback
    ensures (exists c :: c in title && (IsWordChar(c) || c == '-')) ==> IsSubsequence(r, title)
    ensures (exists c :: c in title && (IsWordChar(c) || c == '-')) ==>
      forall c :: IsWordChar(c) || c == '-' ==> Count(r, c) == Count(title, c)
    ensures (exists c :: c in title && (IsWordChar(c) || c == '-')) ==> exists i :: TrimmedSlice(Strip(title), r, i)
  {
    var t := Trim(Strip(title));
    TrimmedTitleCounts(title);
    TrimmedTitleKept(title);
    TrimmedTitleSubsequence(title);
    TrimmedTitleEmpty(title);
    FallbackIsClean();
    QuoteNotKept();
    if t == "" then Fallback else t
  }

  /** A double quote is removed, so it never reaches the quoted header parameter. */
  lemma QuoteNotKept()
    ensures !Kept('"')
  {
    assert '"' as int == 0x22;
  }

  lemma FallbackIsClean()
    ensures forall c :: c in Fallback ==> Kept(c)
    ensures !IsSpace(Fallback[0]) && !IsSpace(Fallback[|Fallback| - 1])
  {
    assert forall c :: c in Fallback ==> 'a' <= c <= 'z';
  }

  /** What survives stripping and trimming is made of kept characters ... */
  lemma TrimmedTitleKept(title: string)
    ensures forall c :: c in Trim(Strip(title)) ==> Kept(c)
  {
    TrimMembers(Strip(title));
  }

  /** Every character of the trimmed text is a character of the text. */
  lemma TrimMembers(s: string)
    ensures forall c :: c in Trim(s) ==> c in s
  {
    TrimIsSlice(s);
    SliceMembers(s, TrimEnd(TrimStart(s)), |s| - |TrimStart(s)|);
  }

  /** ... and keeps every letter, digit, `_` and `-` of the title, as often as it occurs ... */
  lemma TrimmedTitleCounts(title: string)
    ensures forall c :: IsWordChar(c) || c == '-' ==> Count(Trim(Strip(title)), c) == Count(title, c)
  {
    forall c | IsWordChar(c) || c == '-'
      ensures Count(Trim(Strip(title)), c) == Count(title, c)
    {
      WordNotSpace(c);
      TrimKeepsCount(Strip(title), c);
    }
  }

  lemma WordNotSpace(c: char)
    requires IsWordChar(c) || c == '-'
    ensures !IsSpace(c) && Kept(c)
  {
  }

  /** ... and keeps the order of the title's characters ... */
  lemma TrimmedTitleSubsequence(title: string)
    ensures IsSubsequence(Trim(Strip(title)), title)
  {
    var stripped := Strip(title);
    var t := Trim(stripped);
    TrimIsSlice(stripped);
    assert t == TrimEnd(TrimStart(stripped));
    SliceIsSubsequence(stripped, title, t, |stripped| - |TrimStart(stripped)|);
  }

  /** ... and is empty exactly when the title has no letter, digit, `_` or `-`. */
  lemma TrimmedTitleEmpty(title: string)
    ensures Trim(Strip(title)) == [] <==> forall c :: c in title ==> !IsWordChar(c) && c != '-'
  {
    var stripped := Strip(title);
    if forall c :: c in title ==> !IsWordChar(c) && c != '-' {
      assert forall c :: c in stripped ==> IsSpace(c);
    } else {
      var c :| c in title && (IsWordChar(c) || c == '-');
      assert c in stripped && !IsSpace(c);
    }
  }

  /** Sanitizing a sanitized title changes nothing. */
  lemma SanitizeIdempotent(title: string)
    ensures Sanitize(Sanitize(title)) == Sanitize(title)
  {
    var r := Sanitize(title);
    assert Strip(r) == r;
    assert Trim(r) == r;
  }

  const DispositionPrefix: string := "attachment; filename=\""

  /** The `Content-Disposition` value that names the download `<name>.mp4`. */
  function Disposition(name: string): string {
    DispositionPrefix + (name + ".mp4") + "\""
  }

  /**
   The `Content-Disposition` header value of the download response. The
   sanitized title cannot close the quoted parameter early, so a reader of
   the header recovers exactly `<title>.mp4`; and the value is a valid
   header value exactly when the sanitized title is.
   */
  function ContentDisposition(title: string): (h: string)
    ensures QuotedFilename(h) == Some(Sanitize(title) + ".mp4")
    ensures HeaderSafe(h) <==> HeaderSafe(Sanitize(title))
  {
    DispositionNamesFile(Sanitize(title));
    DispositionSafe(Sanitize(title));
    Disposition(Sanitize(title))
  }

  /** Index of the first `"` in `s`, or `|s|` when there is none. */
  function QuoteIndex(s: string): (n: nat)
    ensures n <= |s|
    ensures forall k :: 0 <= k < n ==> s[k] != '"'
    ensures n < |s| ==> s[n] == '"'
  {
    if s == [] || s[0] == '"' then 0 else 1 + QuoteIndex(s[1..])
  }

  /**
   Reads the file name back out of a header value: the text between the
   opening quote and the next quote, which must end the header.
   */
  function QuotedFilename(header: string): Option<string> {
    if |header| < |DispositionPrefix| || header[..|DispositionPrefix|] != DispositionPrefix then None
    else
      var value := header[|DispositionPrefix|..];
      var n := QuoteIndex(value);
      if n == |value| - 1 then Some(value[..n]) else None
  }

  /** A name without a quote is read back whole from its quoted parameter. */
  lemma QuotedFilenameOf(name: string)
    requires forall k :: 0 <= k < |name| ==> name[k] != '"'
    ensures QuotedFilename(DispositionPrefix + name + "\"") == Some(name)
  {
    var h := DispositionPrefix + name + "\"";
    assert h[..|DispositionPrefix|] == DispositionPrefix;
    var value := h[|DispositionPrefix|..];
    assert value == name + "\"";
    QuoteIndexPast(name, "\"");
    assert value[..|name|] == name;
  }

  /** A name without a quote is read back from its header value followed by `.mp4`. */
  lemma DispositionNamesFile(name: string)
    requires '"' !in name
    ensures QuotedFilename(Disposition(name)) == Some(name + ".mp4")
  {
    Mp4NameHasNoQuote(name);
    QuotedFilenameOf(name + ".mp4");
  }

  lemma Mp4NameHasNoQuote(t: string)
    requires '"' !in t
    ensures forall k :: 0 <= k < |t + ".mp4"| ==> (t + ".mp4")[k] != '"'
  {
    forall k | 0 <= k < |t + ".mp4"|
      ensures (t + ".mp4")[k] != '"'
    {
      if k < |t| {
        assert (t + ".mp4")[k] == t[k];
      }
    }
  }

  lemma {:induction false} QuoteIndexPast(a: string, b: string)
    requires forall k :: 0 <= k < |a| ==> a[k] != '"'
    ensures QuoteIndex(a + b) == |a| + QuoteIndex(b)
    decreases |a|
  {
    if a != [] {
      assert (a + b)[1..] == a[1..] + b;
      QuoteIndexPast(a[1..], b);
    } else {
      assert a + b == b;
    }
  }

  // ---------------------------------------------------------------------
  // Header values
  // ---------------------------------------------------------------------

  /**
   A character Node.js accepts in a header value: tab, printable ASCII and
   0x80-0xFF. `setHeader` throws on any other, so `res.header` does too.
   */
  predicate HeaderChar(c: char) {
    c == '\t' || (0x20 <= c as int <= 0x7E) || (0x80 <= c as int <= 0xFF)
  }

  predicate HeaderSafe(s: string) {
    forall i :: 0 <= i < |s| ==> HeaderChar(s[i])
  }

  lemma {:induction false} HeaderSafeConcat(a: string, b: string)
    ensures HeaderSafe(a + b) <==> HeaderSafe(a) && HeaderSafe(b)
  {
    var ab := a + b;
    assert forall i :: 0 <= i < |a| ==> ab[i] == a[i];
    assert forall i :: 0 <= i < |b| ==> ab[|a| + i] == b[i];
    if HeaderSafe(a) && HeaderSafe(b) {
      forall i | 0 <= i < |ab|
        ensures HeaderChar(ab[i])
      {
        if i >= |a| {
          assert ab[i] == b[i - |a|];
        }
      }
    }
  }

  /** The header value is accepted exactly when the name in it is. */
  lemma DispositionSafe(name: string)
    ensures HeaderSafe(Disposition(name)) <==> HeaderSafe(name)
  {
    assert HeaderSafe(DispositionPrefix) && HeaderSafe(".mp4") && HeaderSafe("\"");
    HeaderSafeConcat(name, ".mp4");
    HeaderSafeConcat(DispositionPrefix, name + ".mp4");
    HeaderSafeConcat(DispositionPrefix + (name + ".mp4"), "\"");
  }

  /** Letters, digits, `_`, `-` and the plain space are all header characters, and none is `"`. */
  lemma PlainNameSafe(t: string)
    requires forall c :: c in t ==> IsWordChar(c) || c == '-' || c == ' '
    ensures HeaderSafe(t) && '"' !in t
  {
    assert forall i :: 0 <= i < |t| ==> t[i] in t;
  }

  /** A title made of header characters gives a name made of header characters. */
  lemma SanitizeHeaderSafe(title: string)
    requires HeaderSafe(title)
    ensures HeaderSafe(Sanitize(title))
  {
    if exists c :: c in title && (IsWordChar(c) || c == '-') {
      SubsequenceHeaderSafe(Sanitize(title), title);
    } else {
      assert forall c :: c in Fallback ==> 'a' <= c <= 'z';
      PlainNameSafe(Fallback);
    }
  }

  lemma SubsequenceHeaderSafe(a: string, b: string)
    requires IsSubsequence(a, b) && HeaderSafe(b)
    ensures HeaderSafe(a)
  {
    SubsequenceMembers(a, b);
    forall i | 0 <= i < |a|
      ensures HeaderChar(a[i])
    {
      assert a[i] in b;
      var j :| 0 <= j < |b| && b[j] == a[i];
    }
  }

  /** A title with an ideographic space (U+3000) between two letters. */
  const WideTitle: string := "a\U{3000}b"

  /**
   As written, `\s` keeps whitespace that no header may carry: the
   ideographic space inside the title survives into the name.
   */
  lemma WideSpaceSurvives()
    ensures Sanitize(WideTitle) == WideTitle
    ensures !HeaderSafe(Sanitize(WideTitle))
  {
    WideTitleChars();
    CleanTitleUnchanged(WideTitle);
  }

  lemma WideTitleChars()
    ensures forall c :: c in WideTitle ==> Kept(c)
    ensures |WideTitle| == 3 && !IsSpace(WideTitle[0]) && !IsSpace(WideTitle[2])
    ensures !HeaderSafe(WideTitle)
  {
    var t := WideTitle;
    assert IsSpace(t[1]) && !HeaderChar(t[1]);
    assert forall c :: c in t ==> c == t[0] || c == t[1] || c == t[2];
  }

  /** A title of kept characters with no whitespace at either end is its own name. */
  lemma CleanTitleUnchanged(t: string)
    requires t != [] && (forall c :: c in t ==> Kept(c)) && !IsSpace(t[0]) && !IsSpace(t[|t| - 1])
    ensures Sanitize(t) == t
  {
    assert Strip(t) == t;
    assert Trim(t) == t;
  }

  /** `s.replace(/\s/g, ' ')` */
  function Blanked(s: string): (r: string)
    ensures |r| == |s|
    ensures forall i :: 0 <= i < |s| ==> r[i] == if IsSpace(s[i]) then ' ' else s[i]
  {
    if s == [] then [] else [if IsSpace(s[0]) then ' ' else s[0]] + Blanked(s[1..])
  }

  /**
   The sanitizer with whitespace turned into plain spaces before trimming,
   `title.replace(/[^\w\s-]/g, '').replace(/\s/g, ' ').trim() || 'video'`:
   its name is always a valid header value, it keeps every letter, digit,
   `_` and `-` of the title, and it agrees with `Sanitize` on every title
   whose only whitespace is the plain space.
   */
  function SafeSanitize(title: string): (r: string)
    ensures r != []
    ensures HeaderSafe(r) && '"' !in r
    ensures (exists c :: c in title && (IsWordChar(c) || c == '-')) ==>
      forall c :: IsWordChar(c) || c == '-' ==> Count(r, c) == Count(title, c)
    ensures (forall c :: c in title && IsSpace(c) ==> c == ' ') ==> r == Sanitize(title)
    ensures !IsSpace(r[0]) && !IsSpace(r[|r| - 1])
    ensures (forall c :: c in title ==> !IsWordChar(c) && c != '-') ==> r == Fallback
    ensures (exists c :: c in title && (IsWordChar(c) || c == '-')) ==> exists i :: TrimmedSlice(Blanked(Strip(title)), r, i)
  {
    var t := Trim(Blanked(Strip(title)));
    FallbackIsClean();
    BlankedTitleFallback(title);
    BlankedTitlePlain(title);
    BlankedTitleCounts(title);
    BlankedTitleAgrees(title);
    FallbackPlain();
    if t == "" then Fallback else t
  }

  lemma FallbackPlain()
    ensures HeaderSafe(Fallback) && '"' !in Fallback
  {
    assert forall c :: c in Fallback ==> 'a' <= c <= 'z';
    PlainNameSafe(Fallback);
  }

  lemma BlankedTitlePlain(title: string)
    ensures HeaderSafe(Trim(Blanked(Strip(title)))) && '"' !in Trim(Blanked(Strip(title)))
  {
    var b := Blanked(Strip(title));
    var t := Trim(b);
    assert forall c :: c in b ==> IsWordChar(c) || c == '-' || c == ' ' by {
      forall c | c in b
        ensures IsWordChar(c) || c == '-' || c == ' '
      {
        var i :| 0 <= i < |b| && b[i] == c;
        assert Strip(title)[i] in Strip(title);
      }
    }
    TrimMembers(b);
    PlainNameSafe(t);
  }

  /** A title without a letter, digit, `_` or `-` blanks and trims to nothing. */
  lemma BlankedTitleFallback(title: string)
    ensures (forall c :: c in title ==> !IsWordChar(c) && c != '-') ==> Trim(Blanked(Strip(title))) == []
  {
    var b := Blanked(Strip(title));
    if forall c :: c in title ==> !IsWordChar(c) && c != '-' {
      forall c | c in b
        ensures IsSpace(c)
      {
        var i :| 0 <= i < |b| && b[i] == c;
        assert Strip(title)[i] in Strip(title);
      }
    }
  }

  lemma BlankedTitleCounts(title: string)
    ensures forall c :: IsWordChar(c) || c == '-' ==> Count(Trim(Blanked(Strip(title))), c) == Count(title, c)
    ensures (exists c :: c in title && (IsWordChar(c) || c == '-')) ==> Trim(Blanked(Strip(title))) != []
  {
    forall c | IsWordChar(c) || c == '-'
      ensures Count(Trim(Blanked(Strip(title))), c) == Count(title, c)
    {
      WordNotSpace(c);
      BlankedCount(Strip(title), c);
      TrimKeepsCount(Blanked(Strip(title)), c);
    }
    if exists c :: c in title && (IsWordChar(c) || c == '-') {
      var c :| c in title && (IsWordChar(c) || c == '-');
      assert Count(Trim(Blanked(Strip(title))), c) > 0;
    }
  }

  lemma BlankedTitleAgrees(title: string)
    ensures (forall c :: c in title && IsSpace(c) ==> c == ' ') ==> Trim(Blanked(Strip(title))) == Trim(Strip(title))
  {
    var s := Strip(title);
    if forall c :: c in title && IsSpace(c) ==> c == ' ' {
      assert forall i :: 0 <= i < |s| ==> s[i] in s;
      assert Blanked(s) == s;
    }
  }

  /** Blanking leaves the count of every non-whitespace character alone. */
  lemma {:induction false} BlankedCount(s: string, c: char)
    requires !IsSpace(c)
    ensures Count(Blanked(s), c) == Count(s, c)
    decreases |s|
  {
    if s != [] {
      BlankedCount(s[1..], c);
      assert Blanked(s)[1..] == Blanked(s[1..]);
    }
  }
}
