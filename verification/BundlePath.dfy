/** Syntax of bundle paths (spec/validate.go): which relative POSIX paths may appear in a
    component, on every filesystem an extracted artifact might land on. */
module BundlePath {
  import opened Prelude

  /** Position of the first c in s, or |s|. */
  function IndexOf(s: string, c: char): (i: nat)
    ensures i <= |s| && c !in s[..i] && (i < |s| ==> s[i] == c)
  {
    if s == [] || s[0] == c then 0
    else
      var i := IndexOf(s[1..], c);
      assert s[..i + 1] == [s[0]] + s[1..][..i];
      i + 1
  }

  /** The segments between the slashes of s; never empty. */
  function Split(s: string): (segments: seq<string>)
    ensures segments != []
    ensures forall i :: 0 <= i < |segments| ==> '/' !in segments[i]
    decreases |s|
  {
    var i := IndexOf(s, '/');
    if i == |s| then
      assert s[..i] == s;
      [s]
    else [s[..i]] + Split(s[i + 1..])
  }

  function Join(segments: seq<string>): string
    requires segments != []
  {
    if |segments| == 1 then segments[0] else segments[0] + "/" + Join(segments[1..])
  }

  lemma {:induction false} JoinCons(head: string, rest: seq<string>)
    requires rest != []
    ensures Join([head] + rest) == head + "/" + Join(rest)
  {
    assert ([head] + rest)[1..] == rest;
  }

  lemma {:induction false} JoinSplit(s: string)
    ensures Join(Split(s)) == s
    decreases |s|
  {
    var i := IndexOf(s, '/');
    if i < |s| {
      JoinSplit(s[i + 1..]);
      JoinCons(s[..i], Split(s[i + 1..]));
      assert Split(s) == [s[..i]] + Split(s[i + 1..]);
      assert s == s[..i] + "/" + s[i + 1..];
    }
  }

  lemma IndexOfUnique(s: string, c: char, i: nat)
    requires i <= |s| && c !in s[..i] && (i < |s| ==> s[i] == c)
    ensures IndexOf(s, c) == i
  {
    var k := IndexOf(s, c);
    assert forall j :: 0 <= j < i ==> s[..i][j] != c;
    assert forall j :: 0 <= j < k ==> s[..k][j] != c;
  }

  /** Distinct segment lists are distinct paths. */
  lemma {:induction false} SplitJoin(segments: seq<string>)
    requires segments != []
    requires forall i :: 0 <= i < |segments| ==> '/' !in segments[i]
    ensures Split(Join(segments)) == segments
    decreases |segments|
  {
    var s := Join(segments);
    if |segments| == 1 {
      IndexOfUnique(s, '/', |s|);
      assert Split(s) == [s[..|s|]] || Split(s) == [s];
      assert s[..|s|] == s;
    } else {
      var i := |segments[0]|;
      assert s[..i] == segments[0] && s[i] == '/' && s[i + 1..] == Join(segments[1..]);
      IndexOfUnique(s, '/', i);
      SplitJoin(segments[1..]);
    }
  }

  /** Why a path is rejected, in the order the checks run. */
  datatype Fault =
    | Empty
    | NulByte
    | Backslash
    | Absolute
    | DriveLetter
    | EmptySegment
    | DotSegment
    | DotDotSegment
    | EdgeOfSegment
    | NotPortable
    | ReservedName

  predicate IsLetter(c: char) {
    'A' <= c <= 'Z' || 'a' <= c <= 'z'
  }

  /** The forbidden runes. The list in the source is written with separating spaces, and the
      space is therefore itself a member. */
  const FORBIDDEN := "< > : \" | ? *"

  predicate IsForbidden(c: char) {
    c < ' ' || c == '\U{7F}' || c in FORBIDDEN
  }

  function UpperChar(c: char): char {
    if 'a' <= c <= 'z' then c - 'a' + 'A' else c
  }

  /** Upper case of the letters a reserved device name can contain. */
  function Upper(s: string): string {
    seq(|s|, i requires 0 <= i < |s| => UpperChar(s[i]))
  }

  function TrimPrefix(s: string, prefix: string): string {
    if prefix <= s then s[|prefix|..] else s
  }

  predicate IsDeviceDigit(s: string) {
    |s| == 1 && ('1' <= s[0] <= '9' || s[0] in {'\U{B9}', '\U{B2}', '\U{B3}'})
  }

  const DEVICES := {"CON", "PRN", "AUX", "NUL"}
  const PORTS := {"COM", "LPT"}

  predicate InReservedTable(base: string) {
    base in DEVICES || (|base| == 4 && base[..3] in PORTS && '1' <= base[3] <= '9')
  }

  predicate IsReservedWindowsName(base: string) {
    || InReservedTable(base)
    || (("COM" <= base || "LPT" <= base)
        && IsDeviceDigit(TrimPrefix(TrimPrefix(base, "COM"), "LPT")))
  }

  /** The nested prefix removal reserves one family of names beyond the Windows devices:
      COMLPT followed by a device digit. */
  lemma ReservedNames(base: string)
    ensures IsReservedWindowsName(base) <==>
            || base in DEVICES
            || (base != [] && IsDeviceDigit(base[|base| - 1..])
                && base[..|base| - 1] in PORTS + {"COMLPT"})
  {
    var once := TrimPrefix(base, "COM");
    var n := |base|;
    if "COM" <= base {
      assert base[..3] == "COM";
      if "LPT" <= once {
        assert base[..6] == "COMLPT" && TrimPrefix(once, "LPT") == base[6..];
      } else {
        assert TrimPrefix(once, "LPT") == base[3..];
        assert n >= 6 ==> base[..6] == "COM" + once[..3];
      }
    } else if "LPT" <= base {
      assert base[..3] == "LPT" && TrimPrefix(once, "LPT") == base[3..];
      assert n >= 6 ==> base[..6][..3] == base[..3];
    } else {
      assert n >= 4 ==> base[..n - 1][..3] == base[..3];
    }
  }

  predicate HasForbidden(segment: string) {
    exists i :: 0 <= i < |segment| && IsForbidden(segment[i])
  }

  /** The name under which Windows looks a segment up. */
  function BaseName(segment: string): string {
    Upper(segment[..IndexOf(segment, '.')])
  }

  function ShapeFault(segment: string): Option<Fault> {
    if segment == "" then Some(EmptySegment)
    else if segment == "." then Some(DotSegment)
    else if segment == ".." then Some(DotDotSegment)
    else if segment[|segment| - 1] == '.' || segment[|segment| - 1] == ' ' || segment[0] == ' ' then Some(EdgeOfSegment)
    else if HasForbidden(segment) then Some(NotPortable)
    else None
  }

  function SegmentFault(segment: string): Option<Fault> {
    if ShapeFault(segment).Some? then ShapeFault(segment)
    else if IsReservedWindowsName(BaseName(segment)) then Some(ReservedName)
    else None
  }

  lemma ForbiddenFaults(segment: string, k: nat)
    requires k < |segment| && IsForbidden(segment[k])
    ensures SegmentFault(segment).Some?
  {
  }

  function FirstSegmentFault(segments: seq<string>): Option<Fault> {
    if segments == [] then None
    else if SegmentFault(segments[0]).Some? then SegmentFault(segments[0])
    else FirstSegmentFault(segments[1..])
  }

  /** ValidateBundlePath. */
  function PathFault(path: string): Option<Fault> {
    if path == "" then Some(Empty)
    else if '\0' in path then Some(NulByte)
    else if '\\' in path then Some(Backslash)
    else if path[0] == '/' then Some(Absolute)
    else if |path| >= 2 && IsLetter(path[0]) && path[1] == ':' then Some(DriveLetter)
    else FirstSegmentFault(Split(path))
  }

  predicate Valid(path: string) {
    PathFault(path).None?
  }

  ghost predicate Sound(segments: seq<string>) {
    forall i :: 0 <= i < |segments| ==> SegmentFault(segments[i]).None?
  }

  lemma {:induction false} NoSegmentFault(segments: seq<string>)
    ensures FirstSegmentFault(segments).None? <==> Sound(segments)
  {
    if segments != [] { NoSegmentFault(segments[1..]); }
  }

  lemma CharOfSegment(path: string, i: nat, k: nat)
    requires i < |Split(path)| && k < |Split(path)[i]|
    ensures Split(path)[i][k] in path
    decreases |path|
  {
    var n := IndexOf(path, '/');
    if n < |path| && i > 0 {
      CharOfSegment(path[n + 1..], i - 1, k);
    }
  }

  lemma SegmentOfChar(path: string, at: nat) returns (i: nat, k: nat)
    requires at < |path| && path[at] != '/'
    ensures i < |Split(path)| && k < |Split(path)[i]| && Split(path)[i][k] == path[at]
    decreases |path|
  {
    var n := IndexOf(path, '/');
    if at < n {
      i, k := 0, at;
    } else {
      assert path[n + 1..][at - n - 1] == path[at];
      i, k := SegmentOfChar(path[n + 1..], at - n - 1);
      assert Split(path)[1..] == Split(path[n + 1..]);
      i := i + 1;
    }
  }

  lemma SoundExcludes(path: string, c: char)
    requires Sound(Split(path)) && IsForbidden(c) && c != '/'
    ensures c !in path
  {
    if c in path {
      var at :| 0 <= at < |path| && path[at] == c;
      var i, k := SegmentOfChar(path, at);
      ForbiddenFaults(Split(path)[i], k);
    }
  }

  /** What a valid path is, segment by segment. The whole-path checks on NUL, backslash,
      leading slash and drive letter only pick the message: the segment rules and the
      backslash test already decide. */
  lemma ValidMeaning(path: string)
    ensures Valid(path) <==> '\\' !in path && Sound(Split(path))
  {
    var segments := Split(path);
    NoSegmentFault(segments);
    if '\\' !in path && Sound(segments) {
      var n := IndexOf(path, '/');
      assert segments[0] == path[..n] by { if n == |path| { assert path[..n] == path; } }
      assert SegmentFault(segments[0]).None?;
      assert segments[0] != "";
      assert path != "" && path[0] != '/';
      SoundExcludes(path, '\0');
      assert ':' in FORBIDDEN by { assert FORBIDDEN[4] == ':'; }
      SoundExcludes(path, ':');
      assert PathFault(path) == FirstSegmentFault(segments);
      assert Valid(path);
    }
  }

  /** The documentation promises to reject a space only at the edge of a segment; the code
      rejects every path that contains one. */
  lemma SpaceIsNeverValid(path: string)
    requires ' ' in path
    ensures !Valid(path)
  {
    assert ' ' in FORBIDDEN by { assert FORBIDDEN[1] == ' '; }
    ValidMeaning(path);
    if Sound(Split(path)) { SoundExcludes(path, ' '); }
  }

  /** The device names of Windows: those without a number, and the ports with one. */
  predicate IsDeviceName(base: string) {
    base in DEVICES || (base != [] && IsDeviceDigit(base[|base| - 1..]) && base[..|base| - 1] in PORTS)
  }

  predicate DocumentedShape(segment: string) {
    && segment != "" && segment != "." && segment != ".."
    && segment[|segment| - 1] != '.' && segment[|segment| - 1] != ' ' && segment[0] != ' '
    && forall i :: 0 <= i < |segment| ==> IsForbidden(segment[i]) ==> segment[i] == ' '
  }

  /** The documented rules for one segment: a space is out of place at its edges only, and only
      device names are reserved. */
  predicate DocumentedSegment(segment: string) {
    DocumentedShape(segment) && !IsDeviceName(BaseName(segment))
  }

  ghost predicate Documented(path: string) {
    '\\' !in path && forall i :: 0 <= i < |Split(path)| ==> DocumentedSegment(Split(path)[i])
  }

  /** COMLPT and a device digit: what the nested prefix removal reserves besides device names. */
  predicate IsMixedPort(base: string) {
    base != [] && IsDeviceDigit(base[|base| - 1..]) && base[..|base| - 1] == "COMLPT"
  }

  lemma ReservedExactly(base: string)
    ensures IsReservedWindowsName(base) <==> IsDeviceName(base) || IsMixedPort(base)
  {
    ReservedNames(base);
  }

  lemma ForbiddenExactly(segment: string)
    ensures HasForbidden(segment) <==>
            ' ' in segment || !forall i :: 0 <= i < |segment| ==> IsForbidden(segment[i]) ==> segment[i] == ' '
  {
    assert IsForbidden(' ') by { assert FORBIDDEN[1] == ' '; }
  }

  lemma ShapeExactly(segment: string)
    ensures ShapeFault(segment).None? <==> DocumentedShape(segment) && ' ' !in segment
  {
    ForbiddenExactly(segment);
  }

  lemma SegmentExactly(segment: string)
    ensures SegmentFault(segment).None? <==>
            DocumentedSegment(segment) && ' ' !in segment && !IsMixedPort(BaseName(segment))
  {
    ShapeExactly(segment);
    ReservedExactly(BaseName(segment));
  }

  /** Code and documentation agree on a path exactly when it is invalid for both, or has neither
      a space nor a segment with a mixed port name. */
  lemma ValidExactly(path: string)
    ensures Valid(path) <==>
            && Documented(path)
            && ' ' !in path
            && forall i :: 0 <= i < |Split(path)| ==> !IsMixedPort(BaseName(Split(path)[i]))
  {
    ValidMeaning(path);
    forall i | 0 <= i < |Split(path)|
      ensures SegmentFault(Split(path)[i]).None? <==>
              DocumentedSegment(Split(path)[i]) && ' ' !in Split(path)[i] && !IsMixedPort(BaseName(Split(path)[i]))
    {
      SegmentExactly(Split(path)[i]);
    }
    if Valid(path) {
      if ' ' in path { SpaceIsNeverValid(path); }
    } else if ' ' !in path {
      forall i | 0 <= i < |Split(path)| ensures ' ' !in Split(path)[i] {
        forall k | 0 <= k < |Split(path)[i]| ensures Split(path)[i][k] != ' ' { CharOfSegment(path, i, k); }
      }
    }
  }

  lemma SingleSegment(name: string)
    requires '/' !in name
    ensures Split(name) == [name]
  {
    IndexOfUnique(name, '/', |name|);
  }

  lemma WholeBase(name: string)
    requires '.' !in name
    ensures BaseName(name) == Upper(name)
  {
    IndexOfUnique(name, '.', |name|);
    assert name[..|name|] == name;
  }

  /** An instance: a space inside a segment is documented and rejected. */
  lemma InnerSpaceRejected()
    ensures Documented("a b") && !Valid("a b")
  {
    var name := "a b";
    SingleSegment(name);
    WholeBase(name);
    assert Upper(name)[1] == ' ';
    assert Upper(name) !in DEVICES;
    assert DocumentedSegment(name);
    SpaceIsNeverValid(name) by { assert name[1] == ' '; }
  }

  lemma MixedPortBase(base: string)
    requires base == Upper("comlpt1")
    ensures IsMixedPort(base) && !IsDeviceName(base)
  {
    assert |base| == 7 && base[6..] == "1" && base[..6] == "COMLPT";
    assert |base[..6]| == 6;
  }

  lemma LettersAllowed(name: string)
    requires forall i :: 0 <= i < |name| ==> 'a' <= name[i] <= 'z' || name[i] == '1'
    ensures forall i :: 0 <= i < |name| ==> !IsForbidden(name[i])
  {
    forall i, k | 0 <= i < |name| && 0 <= k < |FORBIDDEN| ensures FORBIDDEN[k] != name[i] {
      assert FORBIDDEN == ['<', ' ', '>', ' ', ':', ' ', '"', ' ', '|', ' ', '?', ' ', '*'];
    }
  }

  lemma MixedPortShape(name: string)
    requires name == "comlpt1"
    ensures DocumentedShape(name)
  {
    assert forall i :: 0 <= i < |name| ==> 'a' <= name[i] <= 'z' || name[i] == '1';
    LettersAllowed(name);
  }

  lemma MixedPortFails(name: string)
    requires '/' !in name && '\\' !in name && DocumentedSegment(name) && IsMixedPort(BaseName(name))
    ensures Documented(name) && !Valid(name)
  {
    SingleSegment(name);
    assert Split(name)[0] == name;
    ValidExactly(name);
  }

  /** An instance: a mixed port name is documented and rejected. */
  lemma MixedPortRejected()
    ensures Documented("comlpt1") && !Valid("comlpt1")
  {
    var name := "comlpt1";
    WholeBase(name);
    MixedPortBase(Upper(name));
    MixedPortShape(name);
    MixedPortFails(name);
  }

  /** stem is spelled as the name given in upper and in lower case, in any mixture of both. */
  predicate Spells(stem: string, upper: string, lower: string)
    requires |upper| == |lower|
  {
    |stem| == |upper| && forall i :: 0 <= i < |stem| ==> stem[i] == upper[i] || stem[i] == lower[i]
  }

  /** A name that Windows takes for a device, or one of the family that is reserved beside them. */
  predicate NamesDevice(stem: string) {
    || Spells(stem, "CON", "con") || Spells(stem, "PRN", "prn")
    || Spells(stem, "AUX", "aux") || Spells(stem, "NUL", "nul")
    || (stem != ""
        && (stem[|stem| - 1] in "123456789" || stem[|stem| - 1] in ['\U{B9}', '\U{B2}', '\U{B3}'])
        && var port := stem[..|stem| - 1];
           Spells(port, "COM", "com") || Spells(port, "LPT", "lpt") || Spells(port, "COMLPT", "comlpt"))
  }

  /** What a segment must be on every filesystem, told without the program's tests: the part
      before its first dot is no device name. */
  ghost predicate Portable(segment: string) {
    && segment != "" && segment[|segment| - 1] != '.'
    && (forall i :: 0 <= i < |segment| ==>
          segment[i] > ' ' && segment[i] !in ['\U{7F}', '<', '>', ':', '"', '|', '?', '*'])
    && forall n :: 0 <= n <= |segment| && '.' !in segment[..n] && (n < |segment| ==> segment[n] == '.') ==>
         !NamesDevice(segment[..n])
  }

  lemma UpperSpells(stem: string, upper: string, lower: string)
    requires |upper| == |lower|
    requires forall i :: 0 <= i < |upper| ==> 'A' <= upper[i] <= 'Z' && lower[i] == upper[i] - 'A' + 'a'
    ensures Upper(stem) == upper <==> Spells(stem, upper, lower)
  {
    if Upper(stem) == upper {
      forall i | 0 <= i < |stem| ensures stem[i] == upper[i] || stem[i] == lower[i] {
        assert UpperChar(stem[i]) == upper[i];
      }
    }
  }

  lemma UpperDigit(c: char)
    ensures IsDeviceDigit([UpperChar(c)]) <==> c in "123456789" || c in ['\U{B9}', '\U{B2}', '\U{B3}']
  {
    assert "123456789" == ['1', '2', '3', '4', '5', '6', '7', '8', '9'];
  }

  lemma UpperPort(stem: string)
    requires stem != ""
    ensures var n := |stem| - 1;
            (IsDeviceDigit(Upper(stem)[n..]) && Upper(stem)[..n] in PORTS + {"COMLPT"}) <==>
            ((stem[n] in "123456789" || stem[n] in ['\U{B9}', '\U{B2}', '\U{B3}'])
             && (Spells(stem[..n], "COM", "com") || Spells(stem[..n], "LPT", "lpt")
                 || Spells(stem[..n], "COMLPT", "comlpt")))
  {
    var n := |stem| - 1;
    var port := stem[..n];
    UpperSpells(port, "COM", "com");
    UpperSpells(port, "LPT", "lpt");
    UpperSpells(port, "COMLPT", "comlpt");
    UpperDigit(stem[n]);
    assert Upper(stem)[..n] == Upper(port) && Upper(stem)[n..] == [UpperChar(stem[n])];
  }

  lemma DeviceExactly(stem: string)
    ensures IsReservedWindowsName(Upper(stem)) <==> NamesDevice(stem)
  {
    ReservedNames(Upper(stem));
    UpperSpells(stem, "CON", "con");
    UpperSpells(stem, "PRN", "prn");
    UpperSpells(stem, "AUX", "aux");
    UpperSpells(stem, "NUL", "nul");
    if stem != "" { UpperPort(stem); }
  }

  lemma ShapePortable(segment: string)
    ensures ShapeFault(segment).None? <==>
            && segment != "" && segment[|segment| - 1] != '.'
            && forall i :: 0 <= i < |segment| ==>
                 segment[i] > ' ' && segment[i] !in ['\U{7F}', '<', '>', ':', '"', '|', '?', '*']
  {
    assert FORBIDDEN == ['<', ' ', '>', ' ', ':', ' ', '"', ' ', '|', ' ', '?', ' ', '*'];
    forall i | 0 <= i < |segment|
      ensures IsForbidden(segment[i]) <==>
              !(segment[i] > ' ' && segment[i] !in ['\U{7F}', '<', '>', ':', '"', '|', '?', '*']) {}
  }

  lemma SegmentPortable(segment: string)
    ensures SegmentFault(segment).None? <==> Portable(segment)
  {
    ShapePortable(segment);
    var n := IndexOf(segment, '.');
    DeviceExactly(segment[..n]);
    forall k | 0 <= k <= |segment| && '.' !in segment[..k] && (k < |segment| ==> segment[k] == '.') ensures k == n {
      IndexOfUnique(segment, '.', k);
    }
  }

  /** A path is accepted exactly when it has no backslash and every segment is portable. */
  lemma PortableExactly(path: string)
    ensures Valid(path) <==> '\\' !in path && forall i :: 0 <= i < |Split(path)| ==> Portable(Split(path)[i])
  {
    ValidMeaning(path);
    forall i | 0 <= i < |Split(path)| ensures SegmentFault(Split(path)[i]).None? <==> Portable(Split(path)[i]) {
      SegmentPortable(Split(path)[i]);
    }
  }

  lemma SoundSegment(segment: string)
    ensures SegmentFault(segment).None? ==> segment !in ["", ".", ".."]
  {
  }

  /** A valid path stays inside the directory it is joined to: it has no segment that
      names the same directory or its parent, and its own splitting loses nothing. */
  lemma ValidStaysInside(path: string)
    requires Valid(path)
    ensures forall i :: 0 <= i < |Split(path)| ==> Split(path)[i] !in ["", ".", ".."]
    ensures path != "" && Join(Split(path)) == path
  {
    ValidMeaning(path);
    JoinSplit(path);
    forall i | 0 <= i < |Split(path)| ensures Split(path)[i] !in ["", ".", ".."] {
      SoundSegment(Split(path)[i]);
    }
  }

  /** Every directory above a valid path is itself a valid path. */
  lemma ValidAncestor(path: string, n: nat)
    requires Valid(path) && 0 < n <= |Split(path)|
    ensures Valid(Join(Split(path)[..n]))
  {
    var segments := Split(path)[..n];
    var above := Join(segments);
    ValidMeaning(path);
    SplitJoin(segments);
    if '\\' in above {
      var at :| 0 <= at < |above| && above[at] == '\\';
      var i, k := SegmentOfChar(above, at);
      CharOfSegment(path, i, k);
    }
    ValidMeaning(above);
  }

  /** The folded segments under which a case-insensitive filesystem stores path. */
  function Keys(fold: string -> string, path: string): (keys: seq<string>)
    ensures |keys| == |Split(path)| && keys != []
  {
    var segments := Split(path);
    seq(|segments|, i requires 0 <= i < |segments| => fold(segments[i]))
  }
}
