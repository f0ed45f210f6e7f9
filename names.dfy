/** The directory-entry name the image builder gives an input file
    (mkfs/mkfs.c:180-215): a leading "user/" is dropped, the rest must not
    contain '/', then one leading '_' is dropped, and what remains must fit
    in DIRSIZ bytes. Names are C strings, here the bytes before the NUL. */
module Names {
  import opened ByteOrder

  const SLASH: byte := 0x2f       // '/'
  const UNDERSCORE: byte := 0x5f  // '_'
  const USER_PREFIX: seq<byte> := [0x75, 0x73, 0x65, 0x72, 0x2f]  // "user/"

  /** Why a name is refused: one of the two asserts of main. */
  datatype NameError =
    | HasSlash  // assert(index(shortname, '/') == 0), mkfs/mkfs.c:192
    | TooLong   // assert(strlen(shortname) <= DIRSIZ), mkfs/mkfs.c:208

  datatype NameResult = Name(name: seq<byte>) | Refused(why: NameError)

  /** The argument with a leading "user/" removed (mkfs/mkfs.c:182-190). */
  function StripUser(arg: seq<byte>): (s: seq<byte>)
    ensures s == arg || (arg == USER_PREFIX + s)
    ensures |arg| >= 5 && arg[..5] == USER_PREFIX ==> arg == USER_PREFIX + s
  {
    if |arg| >= 5 && arg[..5] == USER_PREFIX then arg[5..] else arg
  }

  /** The name with one leading '_' removed (mkfs/mkfs.c:203-206). */
  function StripUnderscore(s: seq<byte>): (t: seq<byte>)
    ensures s == t || s == [UNDERSCORE] + t
    ensures |s| > 0 && s[0] == UNDERSCORE ==> s == [UNDERSCORE] + t
  {
    if |s| > 0 && s[0] == UNDERSCORE then s[1..] else s
  }

  /** The directory-entry name for a command-line argument, or the assert
      that stops the builder. */
  function ShortName(arg: seq<byte>, dirsiz: nat): (r: NameResult)
    requires 0 !in arg
    ensures r.Name? ==> SLASH !in r.name && |r.name| <= dirsiz
    ensures r.Name? ==> r.name == StripUnderscore(StripUser(arg))
    ensures r == Refused(HasSlash) <==> SLASH in StripUser(arg)
    ensures r == Refused(TooLong) <==>
              SLASH !in StripUser(arg) && |StripUnderscore(StripUser(arg))| > dirsiz
  {
    var s := StripUser(arg);
    if SLASH in s then Refused(HasSlash)
    else
      var t := StripUnderscore(s);
      if |t| > dirsiz then Refused(TooLong) else Name(t)
  }

  /** The names the build gives its input files come out as intended: a
      program built as user/_cat, _cat, user/cat or cat is entered as cat,
      provided its bare name has no '/', does not start with '_' and fits
      in DIRSIZ bytes. */
  lemma ShortNameOfBuildOutputs(n: seq<byte>, dirsiz: nat)
    requires 0 !in n && SLASH !in n && |n| <= dirsiz
    requires |n| == 0 || n[0] != UNDERSCORE
    ensures ShortName(USER_PREFIX + [UNDERSCORE] + n, dirsiz) == Name(n)
    ensures ShortName([UNDERSCORE] + n, dirsiz) == Name(n)
    ensures ShortName(USER_PREFIX + n, dirsiz) == Name(n)
    ensures ShortName(n, dirsiz) == Name(n)
  {
    assert (USER_PREFIX + [UNDERSCORE] + n)[..5] == USER_PREFIX;
    assert (USER_PREFIX + [UNDERSCORE] + n)[5..] == [UNDERSCORE] + n;
    assert (USER_PREFIX + n)[..5] == USER_PREFIX;
    assert (USER_PREFIX + n)[5..] == n;
    assert ([UNDERSCORE] + n)[1..] == n;
    NoSlashNoPrefix(n);
    NoSlashNoPrefix([UNDERSCORE] + n);
  }

  /** A name without '/' cannot start with "user/". */
  lemma NoSlashNoPrefix(s: seq<byte>)
    requires SLASH !in s
    ensures StripUser(s) == s
  {
  }

  /** Only the "user/" prefix is forgiven: a deeper path stops the
      builder. */
  lemma ShortNameRefusesSubdirectories(dir: seq<byte>, n: seq<byte>, dirsiz: nat)
    requires 0 !in dir && 0 !in n
    ensures ShortName(USER_PREFIX + dir + [SLASH] + n, dirsiz) == Refused(HasSlash)
  {
    var b := USER_PREFIX + dir + [SLASH] + n;
    assert b[..5] == USER_PREFIX;
    assert b[5..] == dir + [SLASH] + n;
    assert b[5..][|dir|] == SLASH;
  }
}
