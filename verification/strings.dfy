/** `strings.CutPrefix`, the one `strings` helper the installer needs. */
module Strings {

  /** `strings.CutPrefix(s, prefix)` without its `found` flag: `s` with one
      leading `prefix` removed, or `s` itself when it does not start with it. */
  function CutPrefix(s: string, prefix: string): (r: string)
    ensures prefix <= s ==> prefix + r == s
    ensures !(prefix <= s) ==> r == s
  {
    if prefix <= s then
      assert s == s[..|prefix|] + s[|prefix|..];
      s[|prefix|..]
    else s
  }

  /** Removing a prefix that was just added gives back the original. */
  lemma CutPrefixOfConcat(prefix: string, s: string)
    ensures CutPrefix(prefix + s, prefix) == s
  {
    assert prefix <= prefix + s;
    assert (prefix + s)[|prefix|..] == s;
  }
}
