/** What several modules share: an optional value, and Python's view of
    whitespace. */
module Common {

  datatype Option<+T> = None | Some(value: T)

  predicate IsSpace(c: char) {
    c == ' ' || '\t' <= c <= '\r' || '\U{1C}' <= c <= '\U{1F}' || c == '\U{85}' || c == '\U{A0}'
  }

  /** Of the ASCII characters: tab to carriage return, the four separators, and the
      space. */
  lemma SpacesInAscii(c: char)
    requires c as int < 128
    ensures IsSpace(c) <==> 9 <= c as int <= 13 || 28 <= c as int <= 31 || c as int == 32
  {
  }

  function StripLeft(s: string): string {
    if s != "" && IsSpace(s[0]) then StripLeft(s[1..]) else s
  }

  function StripRight(s: string): string {
    if s != "" && IsSpace(s[|s| - 1]) then StripRight(s[..|s| - 1]) else s
  }

  /** `str.strip` */
  function Strip(s: string): string {
    StripRight(StripLeft(s))
  }

  lemma {:induction false} StripIsTrimmed(s: string)
    ensures Strip(s) == "" || (!IsSpace(Strip(s)[0]) && !IsSpace(Strip(s)[|Strip(s)| - 1]))
    ensures Strip(Strip(s)) == Strip(s)
  {
    LeftIsTrimmed(s);
    RightKeepsLeft(StripLeft(s));
    LeftIsTrimmed(Strip(s));
    RightKeepsLeft(Strip(s));
  }

  lemma {:induction false} LeftIsTrimmed(s: string)
    ensures StripLeft(s) == "" || !IsSpace(StripLeft(s)[0])
    ensures s == "" || !IsSpace(s[0]) ==> StripLeft(s) == s
  {
    if s != "" { LeftIsTrimmed(s[1..]); }
  }

  lemma {:induction false} RightKeepsLeft(s: string)
    ensures StripRight(s) <= s
    ensures StripRight(s) == "" || !IsSpace(StripRight(s)[|StripRight(s)| - 1])
    ensures s == "" || !IsSpace(s[|s| - 1]) ==> StripRight(s) == s
  {
    if s != "" { RightKeepsLeft(s[..|s| - 1]); }
  }

  lemma SomeElement<T>(s: set<T>) returns (x: T)
    requires s != {}
    ensures x in s
  {
    x :| x in s;
  }
}
