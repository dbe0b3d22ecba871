/** Class names, marker names and mark names. */
module Names {

  /** A class name as the host reports it, e.g. "User". */
  type TypeName = string

  /** A mark such as "like" or "favorite"; compared by equality only. */
  type Mark = string

  predicate IsUpper(c: char)
  {
    'A' <= c <= 'Z'
  }

  function DowncaseChar(c: char): char
  {
    if IsUpper(c) then (c as int + 32) as char else c
  }

  /**
   * The downcased form of a class name, as used for marker names and for
   * explicit allowed-marker lists ("User" becomes "user").
   */
  function Downcase(s: string): (r: string)
    ensures |r| == |s|
    ensures forall i :: 0 <= i < |s| ==> !IsUpper(r[i])
    ensures forall i :: 0 <= i < |s| && !IsUpper(s[i]) ==> r[i] == s[i]
    ensures forall i :: 0 <= i < |s| && IsUpper(s[i]) ==> r[i] as int == s[i] as int + 32
  {
    seq(|s|, i requires 0 <= i < |s| => DowncaseChar(s[i]))
  }

  /** A name that contains an upper-case letter is never a downcased name. */
  lemma UpperNeverDowncased(name: string, s: string)
    requires exists i :: 0 <= i < |name| && IsUpper(name[i])
    ensures Downcase(s) != name
  {
  }
}
