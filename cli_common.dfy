/**
 * src/ndlab/cli/cli_common.py: the log-file name cleaner and the shell
 * completion filters of the command line. The completions read the saved
 * state; here the state's tables, and the host's NIC names, are passed in.
 */
module CliCommon {
  import opened Wrappers
  import opened Text
  import opened CurrentState
  import opened Paths

  // ---------------------------------------------------------------------------
  // sanitize_log_file

  /** The characters `[\w.-]` keeps. */
  predicate Kept(c: char) {
    IsWordChar(c) || c == '.' || c == '-'
  }

  /** `re.sub(r"[^\w\.-]", "", name)`. */
  function Clean(name: string): (r: string)
    ensures |r| <= |name|
    ensures forall i :: 0 <= i < |r| ==> Kept(r[i])
  {
    if name == [] then []
    else Clean(name[..|name| - 1]) + (if Kept(name[|name| - 1]) then [name[|name| - 1]] else [])
  }

  /** Cleaning works character by character, so the survivors keep their order. */
  lemma {:induction false} CleanConcat(a: string, b: string)
    ensures Clean(a + b) == Clean(a) + Clean(b)
    decreases |b|
  {
    if b == [] {
      assert a + b == a;
    } else {
      CleanConcat(a, b[..|b| - 1]);
      assert (a + b)[..|a + b| - 1] == a + b[..|b| - 1] && (a + b)[|a + b| - 1] == b[|b| - 1];
    }
  }

  /** A character survives exactly when it is kept. */
  lemma {:induction false} CleanMembers(name: string, c: char)
    ensures c in Clean(name) <==> c in name && Kept(c)
  {
    if name != [] {
      var init := name[..|name| - 1];
      CleanMembers(init, c);
      assert name == init + [name[|name| - 1]];
    }
  }

  /** A name made of kept characters is left alone; so cleaning twice is cleaning once. */
  lemma {:induction false} CleanFixed(name: string)
    requires forall i :: 0 <= i < |name| ==> Kept(name[i])
    ensures Clean(name) == name
  {
    if name != [] {
      CleanFixed(name[..|name| - 1]);
    }
  }

  /** sanitize_log_file: the parent of the path, joined with its cleaned name. */
  function SanitizeLogFile(f: string): string {
    var p := Parse(f);
    Str(Child(Parent(p), CleanedName(p)))
  }

  /** The name of `p` with only the characters `[\w.-]` left; it holds no '/'. */
  function CleanedName(p: PurePath): (n: string)
    ensures NoChar(n, '/')
  {
    var n := Clean(Name(p));
    assert NoChar(n, '/') by {
      forall i | 0 <= i < |n| ensures n[i] != '/' {
        assert Kept(n[i]);
      }
    }
    n
  }

  /**
   * sanitize_log_file keeps the directory and keeps in the name only the
   * characters `[\w.-]`, in their order. A cleaned name that is empty or
   * "." adds nothing, leaving the directory alone; any other cleaned name
   * is the name of the result, and sanitising again changes nothing.
   */
  lemma SanitizeLogFileSpec(f: string)
    ensures var p, r := Parse(f), Parse(SanitizeLogFile(f));
      && (Component(CleanedName(p)) ==> Parent(r) == Parent(p) && Name(r) == CleanedName(p))
      && (!Component(CleanedName(p)) ==> r == Parent(p))
    ensures Component(CleanedName(Parse(f))) ==> SanitizeLogFile(SanitizeLogFile(f)) == SanitizeLogFile(f)
  {
    var p := Parse(f);
    var n := CleanedName(p);
    var q := Child(Parent(p), n);
    assert WellFormed(Parent(p));
    ParseStr(q);
    if Component(n) {
      ChildName(Parent(p), n);
      assert forall i :: 0 <= i < |n| ==> Kept(n[i]);
      CleanFixed(n);
      assert CleanedName(q) == n;
    } else {
      assert Components([n]) == [] by {
        assert [n][1..] == [];
      }
      assert q.parts == Parent(p).parts;
    }
  }

  /**
   * The name is taken after pathlib drops a trailing '/' or "."
   * component: "logs/a b/" and "logs/a b/." are cleaned like "logs/a b".
   */
  lemma SanitizeIgnoresTrailing(f: string)
    requires HasName(f)
    ensures SanitizeLogFile(f + "/") == SanitizeLogFile(f)
    ensures SanitizeLogFile(f + "/.") == SanitizeLogFile(f)
  {
    ParseTrailing(f);
  }

  /** Two leading slashes are kept: "//" and a clean name is left as it is. */
  lemma SanitizeDoubleSlash(n: string)
    requires Component(n) && forall i :: 0 <= i < |n| ==> Kept(n[i])
    ensures SanitizeLogFile("//" + n) == "//" + n
  {
    var p := PurePath("//", [n]);
    assert WellFormed(p);
    assert Join("/", [n]) == n;
    assert Str(p) == "//" + n;
    ParseStr(p);
    CleanFixed(n);
    ParentChildName(p);
  }

  // ---------------------------------------------------------------------------
  // The completion filters

  /** `[x for x in items if x.startswith(incomplete)]`. */
  function PrefixFilter(items: seq<string>, incomplete: string): (r: seq<string>)
    ensures |r| <= |items|
    ensures forall i :: 0 <= i < |r| ==> StartsWith(r[i], incomplete)
  {
    if items == [] then []
    else
      var x := items[|items| - 1];
      PrefixFilter(items[..|items| - 1], incomplete) + (if StartsWith(x, incomplete) then [x] else [])
  }

  /** A completion offers exactly the candidates that begin with what was typed. */
  lemma {:induction false} PrefixFilterMembers(items: seq<string>, incomplete: string, x: string)
    ensures x in PrefixFilter(items, incomplete) <==> x in items && StartsWith(x, incomplete)
  {
    if items != [] {
      var init := items[..|items| - 1];
      PrefixFilterMembers(init, incomplete, x);
      assert items == init + [items[|items| - 1]];
    }
  }

  /** Filtering works item by item, so the offers keep the collection's order. */
  lemma {:induction false} PrefixFilterConcat(a: seq<string>, b: seq<string>, incomplete: string)
    ensures PrefixFilter(a + b, incomplete) == PrefixFilter(a, incomplete) + PrefixFilter(b, incomplete)
    decreases |b|
  {
    if b == [] {
      assert a + b == a;
    } else {
      PrefixFilterConcat(a, b[..|b| - 1], incomplete);
      assert (a + b)[..|a + b| - 1] == a + b[..|b| - 1] && (a + b)[|a + b| - 1] == b[|b| - 1];
    }
  }

  /** Nothing typed yet: everything is offered. */
  lemma {:induction false} PrefixFilterEmpty(items: seq<string>)
    ensures PrefixFilter(items, "") == items
  {
    if items != [] {
      PrefixFilterEmpty(items[..|items| - 1]);
    }
  }

  /** Filtering a sorted list leaves it sorted. */
  lemma {:induction false} PrefixFilterSorted(items: seq<string>, incomplete: string)
    requires SortedStrings(items)
    ensures SortedStrings(PrefixFilter(items, incomplete))
  {
    if items != [] {
      var init, x := items[..|items| - 1], items[|items| - 1];
      PrefixFilterSorted(init, incomplete);
      var r := PrefixFilter(init, incomplete);
      forall i | 0 <= i < |r| ensures StrLe(r[i], x) {
        PrefixFilterMembers(init, incomplete, r[i]);
        var j :| 0 <= j < |init| && init[j] == r[i];
      }
    }
  }

  /**
   * `[name for name, v in d.items() if name.startswith(incomplete) and
   * (v.pid if running else not v.pid)]`.
   */
  function PidFilter(names: seq<string>, pids: map<string, Option<int>>, incomplete: string, running: bool): (r: seq<string>)
    ensures |r| <= |names|
  {
    if names == [] then []
    else
      var x := names[|names| - 1];
      var keep := StartsWith(x, incomplete) && x in pids && Running(pids[x]) == running;
      PidFilter(names[..|names| - 1], pids, incomplete, running) + (if keep then [x] else [])
  }

  /**
   * The running and the stopped completions split the prefix matches: each
   * match is in exactly one of them, and their sizes add up.
   */
  lemma {:induction false} PidFilterPartition(names: seq<string>, pids: map<string, Option<int>>, incomplete: string, x: string)
    requires forall i :: 0 <= i < |names| ==> names[i] in pids
    ensures x in PidFilter(names, pids, incomplete, true) <==> x in PrefixFilter(names, incomplete) && x in pids && Running(pids[x])
    ensures x in PidFilter(names, pids, incomplete, false) <==> x in PrefixFilter(names, incomplete) && x in pids && !Running(pids[x])
    ensures |PidFilter(names, pids, incomplete, true)| + |PidFilter(names, pids, incomplete, false)| == |PrefixFilter(names, incomplete)|
  {
    if names != [] {
      var init := names[..|names| - 1];
      PidFilterPartition(init, pids, incomplete, x);
      assert names == init + [names[|names| - 1]];
      PrefixFilterMembers(names, incomplete, x);
      PrefixFilterMembers(init, incomplete, x);
    } else {
      PrefixFilterMembers(names, incomplete, x);
    }
  }

  function DevicePids(t: Tables): (m: map<string, Option<int>>)
    ensures m.Keys == t.devices.values.Keys
  {
    map d | d in t.devices.values :: t.devices.values[d].pid
  }

  function BridgePids(t: Tables): (m: map<string, Option<int>>)
    ensures m.Keys == t.bridges.values.Keys
  {
    map b | b in t.bridges.values :: t.bridges.values[b].pid
  }

  /** tag_completion. */
  function TagCompletion(t: Tables, incomplete: string): seq<string> {
    PrefixFilter(t.tags.keys, incomplete)
  }

  /** active_build_tag_completion. */
  function ActiveBuildTagCompletion(t: Tables, incomplete: string): seq<string> {
    PrefixFilter(ActiveBuildIn(t.devices.values, t.devices.keys), incomplete)
  }

  /** base_tag_completion: get_base_tags raising is passed on. */
  function BaseTagCompletion(t: Tables, incomplete: string): Result<seq<string>, string> {
    var base :- BaseTagsIn(t.tags.keys);
    Success(PrefixFilter(base, incomplete))
  }

  /** device_completion. */
  function DeviceCompletion(t: Tables, incomplete: string): seq<string> {
    PrefixFilter(t.devices.keys, incomplete)
  }

  /** running_device_completion and stopped_device_completion. */
  function DevicePidCompletion(t: Tables, incomplete: string, running: bool): seq<string> {
    PidFilter(t.devices.keys, DevicePids(t), incomplete, running)
  }

  /** bridge_completion. */
  function BridgeCompletion(t: Tables, incomplete: string): seq<string> {
    PrefixFilter(t.bridges.keys, incomplete)
  }

  /** running_bridge_completion and stopped_bridge_completion. */
  function BridgePidCompletion(t: Tables, incomplete: string, running: bool): seq<string> {
    PidFilter(t.bridges.keys, BridgePids(t), incomplete, running)
  }

  /** open_interface_completion. */
  function OpenInterfaceCompletion(t: Tables, incomplete: string): seq<string> {
    PrefixFilter(OpenInterfacesSpec(t), incomplete)
  }

  /** physical_interface_completion, over the host's NIC names. */
  function PhysicalInterfaceCompletion(nics: seq<string>, incomplete: string): seq<string> {
    PrefixFilter(SortStrings(nics), incomplete)
  }

  /** The tag, device and bridge completions offer exactly the matching keys, in dict order. */
  lemma NameCompletions(t: Tables, incomplete: string, x: string)
    ensures x in TagCompletion(t, incomplete) <==> x in t.tags.keys && StartsWith(x, incomplete)
    ensures x in DeviceCompletion(t, incomplete) <==> x in t.devices.keys && StartsWith(x, incomplete)
    ensures x in BridgeCompletion(t, incomplete) <==> x in t.bridges.keys && StartsWith(x, incomplete)
    ensures DeviceCompletion(t, "") == t.devices.keys
  {
    PrefixFilterMembers(t.tags.keys, incomplete, x);
    PrefixFilterMembers(t.devices.keys, incomplete, x);
    PrefixFilterMembers(t.bridges.keys, incomplete, x);
    PrefixFilterEmpty(t.devices.keys);
  }

  /** active_build_tag_completion offers the matching devices that carry a build tag. */
  lemma ActiveBuildTagCompletionSpec(t: Tables, incomplete: string, x: string)
    ensures x in ActiveBuildTagCompletion(t, incomplete) <==>
      x in t.devices.keys && x in t.devices.values && Truthy(t.devices.values[x].buildTag) && StartsWith(x, incomplete)
  {
    PrefixFilterMembers(ActiveBuildIn(t.devices.values, t.devices.keys), incomplete, x);
    ActiveBuildInMembers(t.devices.values, t.devices.keys, x);
  }

  /** base_tag_completion offers the matching tags without a build part, and fails as get_base_tags does. */
  lemma BaseTagCompletionSpec(t: Tables, incomplete: string, x: string)
    ensures BaseTagCompletion(t, incomplete).Success? <==> BaseTagsIn(t.tags.keys).Success?
    ensures BaseTagCompletion(t, incomplete).Success? ==>
      (x in BaseTagCompletion(t, incomplete).value <==>
         x in t.tags.keys && Images.GetNameVersionBuildTag(x).Success? && Images.GetNameVersionBuildTag(x).value.build.None?
         && StartsWith(x, incomplete))
  {
    BaseTagsInExact(t.tags.keys, x);
    if BaseTagsIn(t.tags.keys).Success? {
      PrefixFilterMembers(BaseTagsIn(t.tags.keys).value, incomplete, x);
    }
  }

  /** The running and stopped device completions split device_completion by pid. */
  lemma DevicePidCompletionSpec(t: Tables, incomplete: string, x: string)
    requires TablesValid(t)
    ensures x in DevicePidCompletion(t, incomplete, true) <==>
      x in DeviceCompletion(t, incomplete) && x in t.devices.values && Running(t.devices.values[x].pid)
    ensures x in DevicePidCompletion(t, incomplete, false) <==>
      x in DeviceCompletion(t, incomplete) && x in t.devices.values && !Running(t.devices.values[x].pid)
    ensures |DevicePidCompletion(t, incomplete, true)| + |DevicePidCompletion(t, incomplete, false)| == |DeviceCompletion(t, incomplete)|
  {
    assert forall i :: 0 <= i < |t.devices.keys| ==> t.devices.keys[i] in DevicePids(t);
    PidFilterPartition(t.devices.keys, DevicePids(t), incomplete, x);
    PrefixFilterMembers(t.devices.keys, incomplete, x);
  }

  /** The running and stopped bridge completions split bridge_completion by pid. */
  lemma BridgePidCompletionSpec(t: Tables, incomplete: string, x: string)
    requires TablesValid(t)
    ensures x in BridgePidCompletion(t, incomplete, true) <==>
      x in BridgeCompletion(t, incomplete) && x in t.bridges.values && Running(t.bridges.values[x].pid)
    ensures x in BridgePidCompletion(t, incomplete, false) <==>
      x in BridgeCompletion(t, incomplete) && x in t.bridges.values && !Running(t.bridges.values[x].pid)
    ensures |BridgePidCompletion(t, incomplete, true)| + |BridgePidCompletion(t, incomplete, false)| == |BridgeCompletion(t, incomplete)|
  {
    assert forall i :: 0 <= i < |t.bridges.keys| ==> t.bridges.keys[i] in BridgePids(t);
    PidFilterPartition(t.bridges.keys, BridgePids(t), incomplete, x);
    PrefixFilterMembers(t.bridges.keys, incomplete, x);
  }

  /** open_interface_completion offers the matching free interfaces, still in ascending order. */
  lemma OpenInterfaceCompletionSpec(t: Tables, incomplete: string, x: string)
    requires TablesValid(t)
    ensures SortedStrings(OpenInterfaceCompletion(t, incomplete))
    ensures x in OpenInterfaceCompletion(t, incomplete) <==>
      StartsWith(x, incomplete) && exists d, i :: d in t.devices.values && FreeAt(d, t.devices.values[d].interfaces.values, i, x)
  {
    OpenInterfacesExact(t, x);
    PrefixFilterSorted(OpenInterfacesSpec(t), incomplete);
    PrefixFilterMembers(OpenInterfacesSpec(t), incomplete, x);
  }

  /** physical_interface_completion offers the matching NICs in ascending order. */
  lemma PhysicalInterfaceCompletionSpec(nics: seq<string>, incomplete: string, x: string)
    ensures SortedStrings(PhysicalInterfaceCompletion(nics, incomplete))
    ensures x in PhysicalInterfaceCompletion(nics, incomplete) <==> x in nics && StartsWith(x, incomplete)
  {
    var sorted := SortStrings(nics);
    PrefixFilterSorted(sorted, incomplete);
    PrefixFilterMembers(sorted, incomplete, x);
    assert x in sorted <==> x in nics by {
      assert x in multiset(sorted) <==> x in multiset(nics);
    }
  }
}
