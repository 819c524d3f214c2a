/** The words and prefixes that appear as bytes, spelled out. */
module Spelling {
  import opened Octets
  import opened Store
  import opened SetOptions
  import opened Handlers
  import opened Scripts
  import Glob

  function Ascii(s: string): Bytes {
    seq(|s|, i requires 0 <= i < |s| => if s[i] < 128 as char then s[i] as int else 63)
  }

  lemma TypesAreSpelled()
    ensures Tag(StringKind) == Ascii("string") && Tag(HashKind) == Ascii("hash")
    ensures Tag(ListKind) == Ascii("list") && Tag(SetKind) == Ascii("set") && NO_TYPE == Ascii("none")
  {
  }

  lemma OptionsAreSpelled()
    ensures NX == Ascii("NX") && XX == Ascii("XX") && GET == Ascii("GET") && EX == Ascii("EX") && PX == Ascii("PX")
    ensures EXAT == Ascii("EXAT") && PXAT == Ascii("PXAT") && SYNC == Ascii("SYNC") && ASYNC == Ascii("ASYNC")
  {
  }

  lemma PrefixesAreSpelled()
    ensures [PREFIX_USER] == Ascii("K") && [PREFIX_TYPE] == Ascii("T")
    ensures [PREFIX_LOG] == Ascii("L") && [PREFIX_STABLE] == Ascii("S") && SCRIPT_PREFIX == Ascii("SCRIPT:")
  {
  }

  lemma PatternBytesAreSpelled()
    ensures [Glob.STAR] == Ascii("*") && [Glob.QUESTION] == Ascii("?") && [Glob.OPEN] == Ascii("[")
    ensures [Glob.CLOSE] == Ascii("]") && [Glob.CARET] == Ascii("^") && [Glob.DASH] == Ascii("-")
    ensures [Glob.BACKSLASH] == Ascii("\\")
  {
  }
}
