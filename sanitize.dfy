/** The file-name sanitiser of the supplied-data download: every character
    a file system refuses becomes an underscore, then spaces and dots are
    stripped from both ends. */
module Sanitize {
  import opened Text

  /** The characters the pattern [<>:"/\\|?*\n\r\t] matches. */
  const Forbidden: set<char> := {'<', '>', ':', '"', '/', '\\', '|', '?', '*', '\n', '\r', '\t'}

  /** The characters strip(" .") removes from the ends. */
  const EdgeChars: set<char> := {' ', '.'}

  /** re.sub of the forbidden class by "_": one character for one. */
  function ReplaceForbidden(s: string): (r: string)
    ensures |r| == |s|
  {
    seq(|s|, i requires 0 <= i < |s| => if s[i] in Forbidden then '_' else s[i])
  }

  /** sanitize_filename. */
  function SanitizeFilename(name: string): (r: string)
    ensures |r| <= |name|
    ensures r == [] || (r[0] !in EdgeChars && r[|r| - 1] !in EdgeChars)
  {
    Trim(ReplaceForbidden(name), EdgeChars)
  }

  /** The result holds no forbidden character, and neither starts nor ends
      with a space or a dot. */
  lemma {:induction false} SanitizeClean(name: string)
    ensures var r := SanitizeFilename(name);
      (forall i :: 0 <= i < |r| ==> r[i] !in Forbidden) &&
      (r == [] || (r[0] !in EdgeChars && r[|r| - 1] !in EdgeChars))
  {
    var t := ReplaceForbidden(name);
    var r := SanitizeFilename(name);
    var a := TrimInfix(t, EdgeChars);
    forall i | 0 <= i < |r|
      ensures r[i] !in Forbidden
    {
      assert r[i] == t[a + i];
    }
  }

  /** The result is the name with each forbidden character replaced in
      place by "_", less a leading and a trailing run of spaces and dots. */
  lemma {:induction false} SanitizeShape(name: string) returns (a: nat)
    ensures var r := SanitizeFilename(name);
      a + |r| <= |name| &&
      (forall i :: 0 <= i < |r| ==> r[i] == if name[a + i] in Forbidden then '_' else name[a + i]) &&
      (forall i :: 0 <= i < a ==> name[i] in EdgeChars) &&
      (forall i :: a + |r| <= i < |name| ==> name[i] in EdgeChars)
  {
    var t := ReplaceForbidden(name);
    a := TrimInfix(t, EdgeChars);
    forall i | 0 <= i < |t| && t[i] in EdgeChars
      ensures name[i] in EdgeChars
    {
      assert '_' !in EdgeChars;
    }
  }

  /** Sanitising a sanitised name changes nothing. */
  lemma SanitizeIdempotent(name: string)
    ensures SanitizeFilename(SanitizeFilename(name)) == SanitizeFilename(name)
  {
    var r := SanitizeFilename(name);
    SanitizeClean(name);
    assert ReplaceForbidden(r) == r;
    TrimKeeps(r, EdgeChars);
  }
}
