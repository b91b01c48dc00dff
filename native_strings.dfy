/** The string rules of native-lib.cpp: directory-path normalisation, the
    trailing-slash trim before booting, the version-string cut at the first
    newline, the `dev_flash_` member filter and the localized-string lookup. */
module NativeStrings {
  import opened Common

  /** `s.ends_with('/')` */
  predicate EndsWithSlash(s: string) {
    |s| > 0 && s[|s| - 1] == '/'
  }

  /** fix_dir_path: a non-empty directory path is made to end in '/'. */
  function FixDirPath(s: string): (r: string)
    ensures s == [] ==> r == []
    ensures s != [] ==> EndsWithSlash(r)
    ensures EndsWithSlash(s) ==> r == s
    ensures r == s || r == s + "/"
  {
    if s != [] && !EndsWithSlash(s) then s + "/" else s
  }

  /** Normalising twice is the same as normalising once. */
  lemma FixDirPathIdempotent(s: string)
    ensures FixDirPath(FixDirPath(s)) == FixDirPath(s)
  {
  }

  /** The `pop_back` loop of Java_net_rpcs3_RPCS3_boot: every trailing '/'
      is removed, and only those. */
  method TrimTrailingSlashes(path: string) returns (r: string)
    ensures !EndsWithSlash(r)
    ensures r <= path
    ensures forall i | |r| <= i < |path| :: path[i] == '/'
  {
    r := path;
    while EndsWithSlash(r)
      invariant r <= path
      invariant forall i | |r| <= i < |path| :: path[i] == '/'
      decreases |r|
    {
      r := r[..|r| - 1];
    }
  }

  /** The three postconditions of TrimTrailingSlashes pin the result down:
      two strings that both satisfy them are equal. */
  lemma TrimmedPathUnique(path: string, r1: string, r2: string)
    requires r1 <= path && r2 <= path
    requires !EndsWithSlash(r1) && !EndsWithSlash(r2)
    requires forall i | |r1| <= i < |path| :: path[i] == '/'
    requires forall i | |r2| <= i < |path| :: path[i] == '/'
    ensures r1 == r2
  {
    assert |r1| < |r2| ==> EndsWithSlash(r2);
    assert |r2| < |r1| ==> EndsWithSlash(r1);
  }

  /** `version_string.erase(version_string.find('\n'))`: everything before the
      first newline, or the whole string when it has none. */
  function TruncateAtNewline(s: string): (r: string)
    ensures r <= s
    ensures '\n' !in r
    ensures |r| < |s| ==> s[|r|] == '\n'
  {
    if s == [] then []
    else if s[0] == '\n' then []
    else [s[0]] + TruncateAtNewline(s[1..])
  }

  /** The prefix that marks an update segment in the firmware manifest. */
  const DevFlashPrefix: string := "dev_flash_"

  predicate IsUpdateSegment(name: string) {
    DevFlashPrefix <= name
  }

  /** The erase/remove_if in installFw: only names starting with `dev_flash_`
      survive, each as often as it occurred, in their original order. */
  function UpdateSegments(names: seq<string>): (r: seq<string>)
    ensures forall n | n in r :: IsUpdateSegment(n)
    ensures forall n | n in names && IsUpdateSegment(n) :: n in r && multiset(r)[n] == multiset(names)[n]
    ensures IsSubsequence(r, names)
    ensures r == [] <==> forall n | n in names :: !IsUpdateSegment(n)
  {
    Filter(names, IsUpdateSegment)
  }

  /** `std::size_t(int(id))`: the 32-bit id converted to the 64-bit unsigned
      size type of the comparison, so that a negative id becomes huge. */
  function AsSizeT(id: int): (u: nat)
    requires -0x8000_0000 <= id < 0x8000_0000
    ensures 0 <= id ==> u == id
    ensures id < 0 ==> u >= 0x1_0000_0000_0000_0000 - 0x8000_0000
  {
    if id < 0 then id + 0x1_0000_0000_0000_0000 else id
  }

  /** get_localized_string / get_localized_u32string: the table entry for an
      id inside the table, the empty string for every other id. The table
      (g_strings) has a fixed size far below 2^31. */
  function LocalizedString<C>(table: seq<seq<C>>, id: int): (r: seq<C>)
    requires |table| < 0x8000_0000
    requires -0x8000_0000 <= id < 0x8000_0000
    ensures 0 <= id < |table| ==> r == table[id]
    ensures !(0 <= id < |table|) ==> r == []
  {
    if AsSizeT(id) < |table| then table[id] else []
  }
}
