/** The payload clean-up of the upload handler: an optional
    `data:image/<word>;base64,` header at the very start of the image data is
    removed once, exactly as `replace(/^data:image\/\w+;base64,/, '')` does
    (anchored at index 0 by `^` without the `m` flag, `\w` being `[A-Za-z0-9_]` without the `u` flag). */
module DataUrl {

  const Scheme: string := "data:image/"
  const Marker: string := ";base64,"

  /** `\w` of a JavaScript regular expression. */
  predicate IsWordChar(c: char) {
    || 'A' <= c <= 'Z'
    || 'a' <= c <= 'z'
    || '0' <= c <= '9'
    || c == '_'
  }

  /** What `\w+` matches: one or more word characters. */
  predicate IsWord(w: string) {
    |w| >= 1 && forall i :: 0 <= i < |w| ==> IsWordChar(w[i])
  }

  /** The header a data URL puts before its base64 payload, for subtype `w`. */
  function Header(w: string): string {
    Scheme + w + Marker
  }

  /** True when `s` begins with a header the regular expression matches. */
  ghost predicate HasHeader(s: string) {
    exists w :: IsWord(w) && Header(w) <= s
  }

  /** Length of the longest run of word characters at the start of `t`:
      where the greedy `\w+` stops. */
  function WordRunLength(t: string): (k: nat)
    ensures k <= |t|
    ensures forall i :: 0 <= i < k ==> IsWordChar(t[i])
    ensures k < |t| ==> !IsWordChar(t[k])
  {
    if |t| > 0 && IsWordChar(t[0]) then 1 + WordRunLength(t[1..]) else 0
  }

  /** Where a header is present, the greedy `\w+` stops exactly at the end
      of its subtype, since the `;` of the marker is not a word character;
      so a string carries at most one header. */
  lemma HeaderSubtypeUnique(s: string, w: string)
    requires IsWord(w) && Header(w) <= s
    ensures Scheme <= s
    ensures WordRunLength(s[|Scheme|..]) == |w|
    ensures Marker <= s[|Scheme|..][|w|..]
    ensures s[|Header(w)|..] == s[|Scheme|..][|w| + |Marker|..]
  {
    var h := Header(w);
    var rest := s[|h|..];
    assert s == h + rest;
    var t := s[|Scheme|..];
    assert t == w + Marker + rest;
    assert t[..|w|] == w;
    assert t[|w|] == ';';
    assert t[|w|..] == Marker + rest;
    assert t[|w| + |Marker|..] == rest;
  }

  /** A header at the start of `s`, found the way the regular expression
      finds it: the scheme, the greedy word run, then the marker. */
  lemma FoundHeader(s: string)
    requires Scheme <= s
    requires WordRunLength(s[|Scheme|..]) >= 1
    requires Marker <= s[|Scheme|..][WordRunLength(s[|Scheme|..])..]
    ensures IsWord(s[|Scheme|..][..WordRunLength(s[|Scheme|..])])
    ensures Header(s[|Scheme|..][..WordRunLength(s[|Scheme|..])]) <= s
  {
    var t := s[|Scheme|..];
    var k := WordRunLength(t);
    assert s == Scheme + t[..k] + t[k..];
  }

  /** Every header present at the start of `s` is the one the scan finds. */
  lemma EveryHeaderIsFound(s: string)
    ensures forall w {:trigger Header(w)} :: IsWord(w) && Header(w) <= s ==>
      && Scheme <= s
      && WordRunLength(s[|Scheme|..]) == |w|
      && Marker <= s[|Scheme|..][|w|..]
      && s[|Header(w)|..] == s[|Scheme|..][|w| + |Marker|..]
  {
    forall w | IsWord(w) && Header(w) <= s
      ensures Scheme <= s
      ensures WordRunLength(s[|Scheme|..]) == |w|
      ensures Marker <= s[|Scheme|..][|w|..]
      ensures s[|Header(w)|..] == s[|Scheme|..][|w| + |Marker|..]
    {
      HeaderSubtypeUnique(s, w);
    }
  }

  /** The image data with its data-URL header, if any, removed. */
  function Strip(s: string): (r: string)
    ensures forall w {:trigger Header(w)} :: IsWord(w) && Header(w) <= s ==> r == s[|Header(w)|..]
    ensures !HasHeader(s) ==> r == s
  {
    EveryHeaderIsFound(s);
    if Scheme <= s && WordRunLength(s[|Scheme|..]) >= 1
       && Marker <= s[|Scheme|..][WordRunLength(s[|Scheme|..])..]
    then
      FoundHeader(s);
      s[|Scheme|..][WordRunLength(s[|Scheme|..]) + |Marker|..]
    else
      s
  }

  /** Stripping a data URL gives back its payload. */
  lemma StripRemovesHeader(w: string, payload: string)
    requires IsWord(w)
    ensures Strip(Header(w) + payload) == payload
  {
    var s := Header(w) + payload;
    assert s[|Header(w)|..] == payload;
  }
}
