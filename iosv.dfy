/**
 * The pure parts of src/ndlab/platforms/iosv.py: interface names of the
 * IOSv router and the IOSv L2 switch, and the version found in an image
 * file name.
 */
module Iosv {
  import opened Wrappers
  import opened Text

  // ---------------------------------------------------------------------------
  // Interface names

  /** CiscoVIOS.get_interface: `GigabitEthernet0/<index>`. */
  function ViosInterface(index: int): (name: string)
    ensures StartsWith(name, "GigabitEthernet0/")
  {
    "GigabitEthernet0/" + IntToString(index)
  }

  /** Different indices name different interfaces. */
  lemma ViosInterfaceInjective(a: int, b: int)
    requires ViosInterface(a) == ViosInterface(b)
    ensures a == b
  {
    var p := "GigabitEthernet0/";
    assert IntToString(a) == ViosInterface(a)[|p|..];
    assert IntToString(b) == ViosInterface(b)[|p|..];
    IntToStringInjective(a, b);
  }

  /** Number of ports per module on the IOSv L2 switch. */
  const PORTS_PER_MODULE: nat := 4

  /**
   * CiscoVIOSL2.get_interface: `GigabitEthernet<index // 4>/<index % 4>`.
   * Python's floor division and modulo agree with Dafny's for a positive divisor.
   */
  function ViosL2Interface(index: int): (name: string)
    ensures StartsWith(name, "GigabitEthernet")
  {
    "GigabitEthernet" + IntToString(index / PORTS_PER_MODULE) + "/" + IntToString(index % PORTS_PER_MODULE)
  }

  lemma SingleDigit(n: nat)
    requires n < 10
    ensures IntToString(n) == [DigitChar(n)]
  {
  }

  /** The port part is always one digit 0..3, right after the last '/'. */
  lemma ViosL2PortInRange(index: int)
    ensures var name := ViosL2Interface(index);
      && |name| >= 2 && name[|name| - 2] == '/'
      && '0' <= name[|name| - 1] <= '3'
      && DigitValue(name[|name| - 1]) == index % PORTS_PER_MODULE
  {
    SingleDigit(index % PORTS_PER_MODULE);
  }

  /** `x + "/" + y` splits uniquely when `x` holds no '/'. */
  lemma SlashSplitUnique(x: string, y: string, x': string, y': string)
    requires NoChar(x, '/') && NoChar(x', '/')
    requires x + "/" + y == x' + "/" + y'
    ensures x == x' && y == y'
  {
    var s := x + "/" + y;
    IndexOfAfterPrefix(x, '/', y);
    IndexOfAfterPrefix(x', '/', y');
    assert x == s[..|x|] && x' == s[..|x'|];
    assert y == s[|x| + 1..] && y' == s[|x'| + 1..];
  }

  /** Different indices, negative ones included, name different switch ports. */
  lemma ViosL2InterfaceInjective(a: int, b: int)
    requires ViosL2Interface(a) == ViosL2Interface(b)
    ensures a == b
  {
    var qa, ra := IntToString(a / PORTS_PER_MODULE), IntToString(a % PORTS_PER_MODULE);
    var qb, rb := IntToString(b / PORTS_PER_MODULE), IntToString(b % PORTS_PER_MODULE);
    assert ViosL2Interface(a) == "GigabitEthernet" + (qa + "/" + ra);
    assert ViosL2Interface(b) == "GigabitEthernet" + (qb + "/" + rb);
    DropPrefix("GigabitEthernet", qa + "/" + ra, qb + "/" + rb);
    SlashSplitUnique(qa, ra, qb, rb);
    IntToStringInjective(a / PORTS_PER_MODULE, b / PORTS_PER_MODULE);
    IntToStringInjective(a % PORTS_PER_MODULE, b % PORTS_PER_MODULE);
  }

  lemma DropPrefix(p: string, x: string, y: string)
    requires p + x == p + y
    ensures x == y
  {
    assert x == (p + x)[|p|..];
    assert y == (p + y)[|p|..];
  }

  // ---------------------------------------------------------------------------
  // Version search: the leftmost match of `15\d(?:-[\da-z]+)?`, ignoring case

  /** "15" followed by a digit starts at `p`. */
  predicate VersionStartsAt(s: string, p: nat) {
    p + 3 <= |s| && s[p] == '1' && s[p + 1] == '5' && IsDigit(s[p + 2])
  }

  /** Length of the longest run of ASCII letters and digits starting at `q`. */
  function AlnumRun(s: string, q: nat): (n: nat)
    requires q <= |s|
    ensures q + n <= |s|
    ensures forall i :: q <= i < q + n ==> IsAlnum(s[i])
    ensures q + n == |s| || !IsAlnum(s[q + n])
    decreases |s| - q
  {
    if q < |s| && IsAlnum(s[q]) then 1 + AlnumRun(s, q + 1) else 0
  }

  /**
   * The text matched from `p`: the three-character stem, extended by '-' and
   * the longest letter/digit run after it when that run is not empty.
   */
  function VersionAt(s: string, p: nat): (v: string)
    requires VersionStartsAt(s, p)
    ensures p + |v| <= |s| && v == s[p..p + |v|]
    ensures |v| >= 3 && v[0] == '1' && v[1] == '5' && IsDigit(v[2])
    ensures |v| == 3 || (|v| >= 5 && v[3] == '-' && forall i :: 4 <= i < |v| ==> IsAlnum(v[i]))
    ensures |v| > 3 ==> p + |v| == |s| || !IsAlnum(s[p + |v|])
    ensures |v| == 3 ==> !(p + 4 < |s| && s[p + 3] == '-' && IsAlnum(s[p + 4]))
  {
    var q := p + 3;
    if q < |s| && s[q] == '-' && AlnumRun(s, q + 1) > 0 then s[p..q + 1 + AlnumRun(s, q + 1)] else s[p..q]
  }

  /** The leftmost start of a version at or after `p`. */
  function FindVersion(s: string, p: nat): (r: Option<nat>)
    requires p <= |s|
    ensures r.Some? ==> p <= r.value && VersionStartsAt(s, r.value)
    ensures r.Some? ==> forall j :: p <= j < r.value ==> !VersionStartsAt(s, j)
    ensures r.None? ==> forall j :: p <= j <= |s| ==> !VersionStartsAt(s, j)
    decreases |s| - p
  {
    if VersionStartsAt(s, p) then Some(p)
    else if p == |s| then None
    else FindVersion(s, p + 1)
  }

  /**
   * CiscoVIOS.version_from_imagename (CiscoVIOSL2's is the same): the
   * leftmost match, or an error when the name holds none.
   */
  function VersionFromImagename(imagename: string): (r: Result<string, string>)
    ensures r.Failure? <==> forall j :: 0 <= j <= |imagename| ==> !VersionStartsAt(imagename, j)
    ensures r.Success? ==>
      exists p: nat :: && VersionStartsAt(imagename, p)
                  && (forall j :: 0 <= j < p ==> !VersionStartsAt(imagename, j))
                  && r.value == VersionAt(imagename, p)
  {
    match FindVersion(imagename, 0)
    case None => Failure("Version not found in " + imagename)
    case Some(p) => Success(VersionAt(imagename, p))
  }

  predicate OccursAt(s: string, v: string, p: nat) {
    p + |v| <= |s| && s[p..p + |v|] == v
  }

  /** A found version is a substring of the name. */
  lemma VersionIsSubstring(imagename: string)
    requires VersionFromImagename(imagename).Success?
    ensures exists p: nat :: OccursAt(imagename, VersionFromImagename(imagename).value, p)
  {
    var p: nat :| && VersionStartsAt(imagename, p)
             && (forall j :: 0 <= j < p ==> !VersionStartsAt(imagename, j))
             && VersionFromImagename(imagename).value == VersionAt(imagename, p);
    assert OccursAt(imagename, VersionAt(imagename, p), p);
  }

  /** The version is read at the leftmost start. */
  lemma VersionAtLeftmost(s: string, k: nat)
    requires VersionStartsAt(s, k)
    requires forall j :: 0 <= j < k ==> !VersionStartsAt(s, j)
    ensures VersionFromImagename(s) == Success(VersionAt(s, k))
  {
    var r := FindVersion(s, 0);
    assert r.Some?;
    assert r.value == k;
  }

  /** The IOSv image name of the project's device tests. */
  lemma ViosTestVector(imagename: string)
    requires imagename == "vios-adventerprisek9-m.SPA.154-3M8.qcow2"
    ensures VersionFromImagename(imagename) == Success("154-3M8")
  {
    assert forall j :: 0 <= j < 27 ==> imagename[j] != '1';
    assert VersionStartsAt(imagename, 27);
    VersionAtLeftmost(imagename, 27);
    ViosTestVersionText(imagename);
  }

  lemma ViosTestVersionText(imagename: string)
    requires imagename == "vios-adventerprisek9-m.SPA.154-3M8.qcow2"
    ensures VersionStartsAt(imagename, 27) && VersionAt(imagename, 27) == "154-3M8"
  {
    assert AlnumRun(imagename, 34) == 0;
    assert AlnumRun(imagename, 31) == 3;
    assert VersionAt(imagename, 27) == imagename[27..34];
    var v := imagename[27..34];
    assert |v| == 7 && v[0] == '1' && v[1] == '5' && v[2] == '4' && v[3] == '-' && v[4] == '3' && v[5] == 'M' && v[6] == '8';
  }

  /** The IOSv L2 image name of the project's device tests. */
  lemma ViosL2TestVector(imagename: string)
    requires imagename == "viosl2-adventerpriseK9-M_152_May_2018.qcow2"
    ensures VersionFromImagename(imagename) == Success("152")
  {
    assert forall j :: 0 <= j < 25 ==> imagename[j] != '1';
    assert VersionStartsAt(imagename, 25);
    VersionAtLeftmost(imagename, 25);
    ViosL2TestVersionText(imagename);
  }

  lemma ViosL2TestVersionText(imagename: string)
    requires imagename == "viosl2-adventerpriseK9-M_152_May_2018.qcow2"
    ensures VersionStartsAt(imagename, 25) && VersionAt(imagename, 25) == "152"
  {
    assert imagename[28] == '_';
    assert VersionAt(imagename, 25) == imagename[25..28];
    var v := imagename[25..28];
    assert |v| == 3 && v[0] == '1' && v[1] == '5' && v[2] == '2';
  }
}
