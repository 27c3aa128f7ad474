/** The parts of Python's `str` and `os.path` behaviour that the cataloger relies on:
    hidden names, `os.path.splitext` (POSIX rules) and `str.lower` (ASCII letters only). */
module PathRules {

  /** `name.startswith('.')`: the cataloger's notion of a hidden file or directory. */
  predicate IsHidden(name: string) {
    |name| > 0 && name[0] == '.'
  }

  /** `s.rfind(c)`: the index of the last occurrence of `c`, or -1. */
  function LastIndexOf(s: string, c: char): (r: int)
    ensures -1 <= r < |s|
    ensures r >= 0 ==> s[r] == c
    ensures forall k :: r < k < |s| ==> s[k] != c
  {
    if s == [] then -1
    else if s[|s| - 1] == c then |s| - 1
    else LastIndexOf(s[..|s| - 1], c)
  }

  /** The number of '.' characters at the front of `s`. */
  function LeadingDots(s: string): (r: nat)
    ensures r <= |s|
    ensures forall k :: 0 <= k < r ==> s[k] == '.'
    ensures r < |s| ==> s[r] != '.'
  {
    if s == [] || s[0] != '.' then 0 else 1 + LeadingDots(s[1..])
  }

  /** A name has an extension when some '.' comes after a character that is not a '.'. */
  ghost predicate HasExtension(name: string) {
    exists i, j :: 0 <= j < i < |name| && name[j] != '.' && name[i] == '.'
  }

  /** `os.path.splitext` on a name without separators: the extension starts at the
      last '.', unless only dots come before it (so ".bashrc" and "..." have none). */
  function SplitExt(name: string): (r: (string, string))
    ensures r.0 + r.1 == name
    ensures r.1 == "" || (r.1[0] == '.' && '.' !in r.1[1..])
    ensures r.1 != "" <==> HasExtension(name)
  {
    var dot := LastIndexOf(name, '.');
    if LeadingDots(name) < dot then
      assert name[dot..][1..] == name[dot + 1..];
      (name[..dot], name[dot..])
    else
      (name, "")
  }

  /** The extension of a file name, `os.path.splitext(name)[1]`. */
  function Ext(name: string): string {
    SplitExt(name).1
  }

  /** A leading dot does not start an extension: ".bashrc" has none. */
  lemma BashrcHasNoExtension()
    ensures Ext(".bashrc") == ""
  {
    var s := ".bashrc";
    assert forall i :: 1 <= i < |s| ==> s[i] != '.';
    assert !HasExtension(s);
  }

  /** Only the last dot starts the extension: "archive.tar.gz" has ".gz". */
  lemma ArchiveExtension()
    ensures Ext("archive.tar.gz") == ".gz"
  {
    var s := "archive.tar.gz";
    assert s[0] != '.' && s[11] == '.' && s[12] != '.' && s[13] != '.';
    assert LastIndexOf(s, '.') == 11;
    assert LeadingDots(s) == 0;
    assert Ext(s) == s[11..];
  }

  function LowerChar(c: char): char {
    if 'A' <= c <= 'Z' then (c as int + 32) as char else c
  }

  predicate IsUpper(c: char) {
    'A' <= c <= 'Z'
  }

  /** `s.lower()`, restricted to the ASCII letters. */
  function Lower(s: string): (r: string)
    ensures |r| == |s|
    ensures forall i :: 0 <= i < |r| ==> !IsUpper(r[i])
    ensures forall i :: 0 <= i < |r| && !IsUpper(s[i]) ==> r[i] == s[i]
    ensures forall i :: 0 <= i < |r| && IsUpper(s[i]) ==> r[i] as int == s[i] as int + 32
  {
    seq(|s|, i requires 0 <= i < |s| => LowerChar(s[i]))
  }

  lemma LowerKeepsLowerCase(s: string)
    requires forall i :: 0 <= i < |s| ==> !IsUpper(s[i])
    ensures Lower(s) == s
  {
  }

  /** Two strings that differ at most in the case of ASCII letters. */
  predicate SameUpToCase(s: string, t: string) {
    && |s| == |t|
    && forall i :: 0 <= i < |s| ==>
         || s[i] == t[i]
         || (IsUpper(s[i]) && t[i] as int == s[i] as int + 32)
         || (IsUpper(t[i]) && s[i] as int == t[i] as int + 32)
  }

  /** Lower-casing forgets exactly the case of ASCII letters. */
  lemma LowerUpToCase(s: string, t: string)
    requires SameUpToCase(s, t)
    ensures Lower(s) == Lower(t)
  {
    forall i | 0 <= i < |s| ensures Lower(s)[i] == Lower(t)[i] {
      assert LowerChar(s[i]) == LowerChar(t[i]);
    }
  }

  lemma {:induction false} LastIndexOfUpToCase(s: string, t: string)
    requires SameUpToCase(s, t)
    ensures LastIndexOf(s, '.') == LastIndexOf(t, '.')
    decreases |s|
  {
    if s != [] {
      assert s[|s| - 1] == '.' <==> t[|t| - 1] == '.';
      if s[|s| - 1] != '.' {
        LastIndexOfUpToCase(s[..|s| - 1], t[..|t| - 1]);
      }
    }
  }

  lemma {:induction false} LeadingDotsUpToCase(s: string, t: string)
    requires SameUpToCase(s, t)
    ensures LeadingDots(s) == LeadingDots(t)
    decreases |s|
  {
    if s != [] {
      assert s[0] == '.' <==> t[0] == '.';
      if s[0] == '.' {
        LeadingDotsUpToCase(s[1..], t[1..]);
      }
    }
  }

  lemma SuffixUpToCase(s: string, t: string, k: nat)
    requires SameUpToCase(s, t) && k <= |s|
    ensures SameUpToCase(s[k..], t[k..])
  {
    assert forall i :: 0 <= i < |s| - k ==> s[k..][i] == s[k + i] && t[k..][i] == t[k + i];
  }

  /** Changing the case of letters in a name changes its extension only in case:
      the dots, and so the split, stay where they are. */
  lemma ExtUpToCase(s: string, t: string)
    requires SameUpToCase(s, t)
    ensures SameUpToCase(Ext(s), Ext(t))
  {
    LastIndexOfUpToCase(s, t);
    LeadingDotsUpToCase(s, t);
    var dot := LastIndexOf(s, '.');
    if LeadingDots(s) < dot {
      assert Ext(s) == s[dot..] && Ext(t) == t[dot..];
      SuffixUpToCase(s, t, dot);
    } else {
      assert Ext(s) == "" && Ext(t) == "";
    }
  }

  /** The extension of "Report.PDF", lower-cased, is ".pdf". */
  lemma UpperCaseExtension()
    ensures Lower(Ext("Report.PDF")) == ".pdf"
  {
    var s := "Report.PDF";
    assert s[0] != '.' && s[6] == '.' && s[7] != '.' && s[8] != '.' && s[9] != '.';
    assert LastIndexOf(s, '.') == 6;
    assert LeadingDots(s) == 0;
    var e := Ext(s);
    assert e == s[6..];
    assert e[0] == '.' && e[1] == 'P' && e[2] == 'D' && e[3] == 'F';
    assert Lower(e)[0] == '.' && Lower(e)[1] == 'p' && Lower(e)[2] == 'd' && Lower(e)[3] == 'f';
  }
}
