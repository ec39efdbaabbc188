/**
  The upload form's filename check: a fixed allow-list of extensions and the
  predicate that accepts a name whose text after its last dot, lower-cased,
  is one of them.
 */
module Filenames {

  /** The ten extensions an upload may carry, all written in lower case. */
  const AllowedExtensions: set<string> :=
    {"txt", "pdf", "png", "jpg", "jpeg", "gif", "csv", "xlsx", "doc", "docx"}

  /**
    ASCII lower-casing of one character: an upper-case ASCII letter becomes its
    lower-case partner, every other character is kept.
   */
  function LowerChar(c: char): (l: char)
    ensures !('A' <= l <= 'Z')
    ensures 'A' <= c <= 'Z' ==> 'a' <= l <= 'z' && l as int - c as int == 'a' as int - 'A' as int
    ensures !('A' <= c <= 'Z') ==> l == c
  {
    if 'A' <= c <= 'Z' then (c as int - 'A' as int + 'a' as int) as char else c
  }

  /** ASCII lower-casing of a whole string, character by character. */
  function Lower(s: string): (r: string)
    ensures |r| == |s|
    ensures forall i :: 0 <= i < |s| ==> r[i] == LowerChar(s[i])
    ensures forall i :: 0 <= i < |r| ==> !('A' <= r[i] <= 'Z')
  {
    seq(|s|, i requires 0 <= i < |s| => LowerChar(s[i]))
  }

  /**
    Splitting at the last dot, at most once: the name itself when it has no
    dot, otherwise the text before and the text after its last dot.
   */
  function RSplitOnce(s: string): (parts: seq<string>)
    ensures |parts| == 1 || |parts| == 2
    ensures |parts| == 1 <==> '.' !in s
    ensures |parts| == 1 ==> parts[0] == s
    ensures |parts| == 2 ==> s == parts[0] + "." + parts[1] && '.' !in parts[1]
  {
    if |s| == 0 then [s]
    else
      var init, last := s[..|s| - 1], s[|s| - 1];
      assert s == init + [last];
      if last == '.' then [init, ""]
      else
        var p := RSplitOnce(init);
        if |p| == 1 then [s] else [p[0], p[1] + [last]]
  }

  /** Position i holds the last dot of f. */
  ghost predicate IsLastDot(f: string, i: int) {
    0 <= i < |f| && f[i] == '.' && forall j :: i < j < |f| ==> f[j] != '.'
  }

  /**
    The upload check: the name has a dot and its last suffix, lower-cased, is
    allowed. Its contract is a reference definition that does not split the
    name: it is accepted exactly when it has a last dot whose suffix,
    lower-cased, is one of the listed extensions.
   */
  predicate AllowedFile(filename: string): (ok: bool)
    ensures ok <==> exists i :: IsLastDot(filename, i) && Lower(filename[i + 1..]) in AllowedExtensions
  {
    SuffixByLastDot(filename);
    '.' in filename && Lower(RSplitOnce(filename)[1]) in AllowedExtensions
  }

  /** In a + "." + b with no dot in b, the dot after a is the last dot. */
  lemma LastDotAfterPrefix(a: string, b: string)
    requires '.' !in b
    ensures IsLastDot(a + "." + b, |a|)
  {
    var s := a + "." + b;
    forall j | |a| < j < |s|
      ensures s[j] != '.'
    {
      assert s[j] == b[j - |a| - 1];
    }
  }

  /** A name has exactly one decomposition at its last dot, and RSplitOnce finds it. */
  lemma {:induction false} SplitAtLastDot(p: string, e: string)
    requires '.' !in e
    ensures RSplitOnce(p + "." + e) == [p, e]
  {
    var s := p + "." + e;
    assert s[|p|] == '.';
    var parts := RSplitOnce(s);
    var q, f := parts[0], parts[1];
    LastDotAfterPrefix(p, e);
    LastDotAfterPrefix(q, f);
    assert s[|q|] == '.';
    assert |p| <= |q|;
    assert |q| <= |p|;
    assert q == s[..|q|] == p;
    assert f == s[|q| + 1..] == e;
  }

  /** Lower-casing commutes with concatenation. */
  lemma LowerAppend(a: string, b: string)
    ensures Lower(a + b) == Lower(a) + Lower(b)
  {
    assert forall i :: 0 <= i < |a + b| ==> Lower(a + b)[i] == (Lower(a) + Lower(b))[i];
  }

  /** Lower-casing neither creates nor removes dots. */
  lemma LowerKeepsDots(s: string)
    ensures '.' in Lower(s) <==> '.' in s
  {
    if '.' in s {
      var i :| 0 <= i < |s| && s[i] == '.';
      assert Lower(s)[i] == '.';
    }
  }

  /** Lower-casing twice is lower-casing once. */
  lemma LowerIdempotent(s: string)
    ensures Lower(Lower(s)) == Lower(s)
  {
    assert forall i :: 0 <= i < |s| ==> Lower(Lower(s))[i] == Lower(s)[i];
  }

  /** A name without a dot is always rejected. */
  lemma NoDotRejected(f: string)
    ensures '.' !in f ==> !AllowedFile(f)
  {
  }

  /** Only the suffix after the last dot is tested; whatever comes before it is ignored. */
  lemma OnlyLastSuffixTested(p: string, e: string)
    requires '.' !in e
    ensures AllowedFile(p + "." + e) <==> Lower(e) in AllowedExtensions
  {
    SplitAtLastDot(p, e);
    assert (p + "." + e)[|p|] == '.';
  }

  /** A name ending in a dot has an empty extension and is rejected. */
  lemma TrailingDotRejected(p: string)
    ensures !AllowedFile(p + ".")
  {
    assert p + "." == p + "." + "";
    OnlyLastSuffixTested(p, "");
  }

  /** A name that is only a dot and an extension is judged by that extension alone. */
  lemma DotPrefixedName(e: string)
    requires '.' !in e
    ensures AllowedFile("." + e) <==> Lower(e) in AllowedExtensions
  {
    assert "." + e == "" + "." + e;
    OnlyLastSuffixTested("", e);
  }

  /** A string of lower-case ASCII letters has no dot and is its own lower-casing. */
  lemma LowerLettersFixed(s: string)
    requires forall k :: 0 <= k < |s| ==> 'a' <= s[k] <= 'z'
    ensures '.' !in s && Lower(s) == s
  {
  }

  /** The list holds ten distinct extensions. */
  lemma TenExtensions()
    ensures |AllowedExtensions| == 10
  {
  }

  /** Every listed extension is non-empty, dot-free and already lower-case. */
  lemma ListedExtensionsAreLowerCase()
    ensures forall e :: e in AllowedExtensions ==> e != "" && '.' !in e && Lower(e) == e
  {
    forall e | e in AllowedExtensions
      ensures e != "" && '.' !in e && Lower(e) == e
    {
      assert forall k :: 0 <= k < |e| ==> 'a' <= e[k] <= 'z';
      LowerLettersFixed(e);
    }
  }

  /** Any name ending in a dot and a listed extension is accepted. */
  lemma ListedExtensionAccepted(p: string, e: string)
    requires e in AllowedExtensions
    ensures AllowedFile(p + "." + e)
  {
    ListedExtensionsAreLowerCase();
    OnlyLastSuffixTested(p, e);
  }

  /** The split RSplitOnce makes is at the last dot of the name. */
  lemma SplitIsAtLastDot(f: string)
    requires '.' in f
    ensures IsLastDot(f, |RSplitOnce(f)[0]|)
    ensures f[|RSplitOnce(f)[0]| + 1..] == RSplitOnce(f)[1]
  {
    var parts := RSplitOnce(f);
    LastDotAfterPrefix(parts[0], parts[1]);
  }

  /** Splitting at a last dot is what RSplitOnce does. */
  lemma LastDotIsSplit(f: string, i: int)
    requires IsLastDot(f, i)
    ensures RSplitOnce(f) == [f[..i], f[i + 1..]]
  {
    var e := f[i + 1..];
    assert f == f[..i] + "." + e;
    assert '.' !in e by {
      forall k | 0 <= k < |e|
        ensures e[k] != '.'
      {
        assert e[k] == f[i + 1 + k];
      }
    }
    SplitAtLastDot(f[..i], e);
  }

  /** The suffix RSplitOnce gives is the suffix after the last dot, in both directions. */
  lemma SuffixByLastDot(f: string)
    ensures ('.' in f && Lower(RSplitOnce(f)[1]) in AllowedExtensions)
        <==> exists i :: IsLastDot(f, i) && Lower(f[i + 1..]) in AllowedExtensions
  {
    if '.' in f && Lower(RSplitOnce(f)[1]) in AllowedExtensions {
      SplitIsAtLastDot(f);
      var i := |RSplitOnce(f)[0]|;
      assert IsLastDot(f, i) && Lower(f[i + 1..]) in AllowedExtensions;
    }
    if exists i :: IsLastDot(f, i) && Lower(f[i + 1..]) in AllowedExtensions {
      var i :| IsLastDot(f, i) && Lower(f[i + 1..]) in AllowedExtensions;
      LastDotIsSplit(f, i);
      assert f[i] == '.';
    }
  }

  /** Lower-casing the whole name first does not change the verdict. */
  lemma AllowedFileOfLower(f: string)
    ensures AllowedFile(Lower(f)) == AllowedFile(f)
  {
    LowerKeepsDots(f);
    if '.' in f {
      var parts := RSplitOnce(f);
      var p, e := parts[0], parts[1];
      LowerAppend(p + ".", e);
      LowerAppend(p, ".");
      assert Lower(".") == ".";
      LowerKeepsDots(e);
      SplitAtLastDot(Lower(p), Lower(e));
      LowerIdempotent(e);
    }
  }

  /** The match is case-insensitive: names equal up to ASCII case get the same verdict. */
  lemma CaseInsensitive(f: string, g: string)
    requires Lower(f) == Lower(g)
    ensures AllowedFile(f) == AllowedFile(g)
  {
    AllowedFileOfLower(f);
    AllowedFileOfLower(g);
  }

  /** "exe" is not a listed extension. */
  lemma ExeNotListed()
    ensures "exe" !in AllowedExtensions
  {
  }

  /** Only the last suffix decides: "a.exe.pdf" is accepted. */
  lemma LastSuffixAccepted()
    ensures AllowedFile("a.exe.pdf")
  {
    assert "a.exe.pdf" == "a.exe" + "." + "pdf";
    ListedExtensionAccepted("a.exe", "pdf");
  }

  /** Only the last suffix decides: "a.pdf.exe" is rejected. */
  lemma LastSuffixRejected()
    ensures !AllowedFile("a.pdf.exe")
  {
    assert "a.pdf.exe" == "a.pdf" + "." + "exe";
    LowerLettersFixed("exe");
    ExeNotListed();
    OnlyLastSuffixTested("a.pdf", "exe");
  }

  /** An upper-case extension is accepted: "Photo.JPG". */
  lemma UpperCaseJpgAccepted()
    ensures AllowedFile("Photo.JPG")
  {
    assert "Photo.JPG" == "Photo" + "." + "JPG";
    assert Lower("JPG") == "jpg" by {
      assert Lower("JPG")[0] == 'j' && Lower("JPG")[1] == 'p' && Lower("JPG")[2] == 'g';
    }
    OnlyLastSuffixTested("Photo", "JPG");
  }

  /** An upper-case extension is accepted: "r.PDF". */
  lemma UpperCasePdfAccepted()
    ensures AllowedFile("r.PDF")
  {
    assert "r.PDF" == "r" + "." + "PDF";
    assert Lower("PDF") == "pdf" by {
      assert Lower("PDF")[0] == 'p' && Lower("PDF")[1] == 'd' && Lower("PDF")[2] == 'f';
    }
    OnlyLastSuffixTested("r", "PDF");
  }

  /** A name that is only a dot and a listed extension is accepted: ".pdf". */
  lemma DotPdfAccepted()
    ensures AllowedFile(".pdf")
  {
    assert ".pdf" == "" + "." + "pdf";
    ListedExtensionAccepted("", "pdf");
  }

  /** A trailing dot or a missing dot is rejected: "report." and "README". */
  lemma NoExtensionRejected()
    ensures !AllowedFile("report.")
    ensures !AllowedFile("README")
  {
    TrailingDotRejected("report");
    assert '.' !in "README";
  }
}
