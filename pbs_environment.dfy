/**
 * pbs_environment: what HPX learns from a PBS batch job, namely its node
 * number, the number of localities (distinct host names, from the node
 * list handed in or from the PBS node file) and the number of threads.
 * The environment variables and the node file's lines are parameters.
 */
module BatchEnvironments {
  import opened Wrappers

  const TwoTo64: int := 0x1_0000_0000_0000_0000
  type SizeT = x: int | 0 <= x < TwoTo64

  /** size_t(-1), meaning "not known". */
  const Unknown: nat := TwoTo64 - 1

  /** The environment variables read, None when unset. */
  datatype Environment = Environment(
    pbsNodeNum: Option<string>,
    pbsNumPpn: Option<string>,
    pbsNodeFile: Option<string>)

  /**
   * from_string<std::size_t>(s, default): the parser itself is not part of
   * this model and is given as `parse`; when it fails the default is used.
   */
  function FromString(parse: string -> Option<SizeT>, s: string, default: SizeT): (r: SizeT)
    ensures parse(s).Some? ==> r == parse(s).value
    ensures parse(s).None? ==> r == default
  {
    match parse(s)
    case Some(v) => v
    case None => default
  }

  datatype Error = CommandLineError(message: string)

  function CouldNotOpenMessage(nodeFile: string): string {
    "Could not open nodefile: '" + nodeFile + "'"
  }

  // ---------------------------------------------------------------------
  // De-duplication of host names

  /** The distinct non-empty host names among `lines`. */
  function Hosts(lines: seq<string>): set<string> {
    set l | l in lines && l != ""
  }

  /** Each distinct non-empty line once, in the order of first occurrence. */
  function FirstOccurrences(lines: seq<string>): seq<string>
  {
    if |lines| == 0 then []
    else
      var n := |lines| - 1;
      FirstOccurrences(lines[..n]) +
        (if lines[n] != "" && lines[n] !in lines[..n] then [lines[n]] else [])
  }

  /** One more line of a scan: how the hosts and the first occurrences grow. */
  lemma ScanStep(lines: seq<string>, i: nat)
    requires i < |lines|
    ensures Hosts(lines[..i + 1]) == Hosts(lines[..i]) + (if lines[i] != "" then {lines[i]} else {})
    ensures FirstOccurrences(lines[..i + 1]) == FirstOccurrences(lines[..i]) +
      (if lines[i] != "" && lines[i] !in Hosts(lines[..i]) then [lines[i]] else [])
  {
    var prefix := lines[..i + 1];
    assert prefix == lines[..i] + [lines[i]];
    assert prefix[..i] == lines[..i];
  }

  predicate Distinct(s: seq<string>) {
    forall i, j :: 0 <= i < j < |s| ==> s[i] != s[j]
  }

  /** The node list filled from the node file holds exactly the hosts, each once. */
  lemma {:induction false} FirstOccurrencesAreHosts(lines: seq<string>)
    ensures Distinct(FirstOccurrences(lines))
    ensures forall x :: x in FirstOccurrences(lines) <==> x in Hosts(lines)
    ensures |FirstOccurrences(lines)| == |Hosts(lines)|
    decreases |lines|
  {
    if |lines| > 0 {
      var n := |lines| - 1;
      var prefix := lines[..n];
      FirstOccurrencesAreHosts(prefix);
      assert lines == prefix + [lines[n]];
      if lines[n] != "" && lines[n] !in prefix {
        assert Hosts(lines) == Hosts(prefix) + {lines[n]};
        assert lines[n] !in Hosts(prefix);
      } else {
        assert Hosts(lines) == Hosts(prefix);
      }
    }
  }

  /** The first index at which `x` occurs. */
  function IndexOf(lines: seq<string>, x: string): (i: nat)
    requires x in lines
    ensures i < |lines| && lines[i] == x && x !in lines[..i]
  {
    if lines[0] == x then 0
    else
      assert x in lines[1..];
      1 + IndexOf(lines[1..], x)
  }

  lemma IndexOfPrefix(lines: seq<string>, n: nat, x: string)
    requires n <= |lines| && x in lines[..n]
    ensures IndexOf(lines, x) == IndexOf(lines[..n], x)
  {
    var i := IndexOf(lines[..n], x);
    var j := IndexOf(lines, x);
    assert lines[..n][i] == lines[i];
  }

  /** The hosts are listed in the order in which they first occur. */
  lemma {:induction false} FirstOccurrencesInOrder(lines: seq<string>, i: nat, j: nat)
    requires i < j < |FirstOccurrences(lines)|
    ensures FirstOccurrences(lines)[i] in lines && FirstOccurrences(lines)[j] in lines
    ensures IndexOf(lines, FirstOccurrences(lines)[i]) < IndexOf(lines, FirstOccurrences(lines)[j])
    decreases |lines|
  {
    FirstOccurrencesAreHosts(lines);
    var n := |lines| - 1;
    var prefix := lines[..n];
    var fo := FirstOccurrences(prefix);
    FirstOccurrencesAreHosts(prefix);
    var x := FirstOccurrences(lines)[i];
    var y := FirstOccurrences(lines)[j];
    assert x in Hosts(lines) && y in Hosts(lines);
    assert x == fo[i];
    assert x in prefix by { assert x in Hosts(prefix); }
    IndexOfPrefix(lines, n, x);
    if j < |fo| {
      assert y == fo[j];
      assert y in prefix by { assert y in Hosts(prefix); }
      IndexOfPrefix(lines, n, y);
      FirstOccurrencesInOrder(prefix, i, j);
    } else {
      assert y == lines[n] && y !in prefix;
      assert IndexOf(lines, y) == n;
    }
  }

  // ---------------------------------------------------------------------
  // The environment object

  /** The fields of pbs_environment together with the caller's node list. */
  datatype State = State(nodeNum: nat, numLocalities: nat, numThreads: nat, valid: bool, nodelist: seq<string>)

  /** read_nodelist */
  function ReadNodelistSpec(s: State): State {
    if s.nodelist == [] then s.(valid := false)
    else s.(numLocalities := |Hosts(s.nodelist)|)
  }

  /** read_nodefile, given the file's lines (None when it cannot be opened). */
  function ReadNodefileSpec(s: State, nodeFile: Option<string>, contents: Option<seq<string>>, haveMpi: bool)
    : (State, Outcome<Error>)
  {
    if nodeFile.None? then (s.(valid := false), Pass)
    else if contents.Some? then
      var fill := s.nodelist == [];
      (s.(numLocalities := |Hosts(contents.value)|,
          nodelist := s.nodelist + (if fill then FirstOccurrences(contents.value) else [])), Pass)
    else if haveMpi then (s, Pass)
    else (s, Fail(CommandLineError(CouldNotOpenMessage(nodeFile.value))))
  }

  /** The constructor: everything unknown and invalid, then the environment is read. */
  function Configure(env: Environment, contents: Option<seq<string>>, nodelist: seq<string>,
                     haveMpi: bool, parse: string -> Option<SizeT>): (State, Outcome<Error>)
  {
    var initial := State(Unknown, Unknown, Unknown, false, nodelist);
    if env.pbsNodeNum.None? then (initial, Pass)
    else
      var numbered := initial.(valid := true, nodeNum := FromString(parse, env.pbsNodeNum.value, 1));
      var (read, outcome) :=
        if nodelist == [] then ReadNodefileSpec(numbered, env.pbsNodeFile, contents, haveMpi)
        else (ReadNodelistSpec(numbered), Pass);
      if outcome.Fail? then (read, outcome)
      else if env.pbsNumPpn.None? then (read, Pass)
      else (read.(numThreads := FromString(parse, env.pbsNumPpn.value, Unknown as SizeT)), Pass)
  }

  /** The std::vector<std::string> the caller passes by reference. */
  class NodeList {
    var items: seq<string>

    constructor (items: seq<string>)
      ensures this.items == items
    {
      this.items := items;
    }
  }

  class PbsEnvironment {
    var nodeNum: nat
    var numLocalities: nat
    var numThreads: nat
    var valid: bool

    function Snapshot(nodelist: NodeList): State
      reads this, nodelist
    {
      State(nodeNum, numLocalities, numThreads, valid, nodelist.items)
    }

    /**
     * pbs_environment(nodelist, have_mpi, debug): the member initialisers
     * followed by the constructor body, which is Initialize.
     */
    constructor ()
      ensures nodeNum == Unknown && numLocalities == Unknown && numThreads == Unknown && !valid
    {
      nodeNum := Unknown;
      numLocalities := Unknown;
      numThreads := Unknown;
      valid := false;
    }

    method Initialize(env: Environment, contents: Option<seq<string>>, nodelist: NodeList,
                      haveMpi: bool, parse: string -> Option<SizeT>) returns (r: Outcome<Error>)
      requires nodeNum == Unknown && numLocalities == Unknown && numThreads == Unknown && !valid
      modifies this, nodelist
      ensures (Snapshot(nodelist), r) == Configure(env, contents, old(nodelist.items), haveMpi, parse)
    {
      valid := env.pbsNodeNum.Some?;
      r := Pass;
      if valid {
        nodeNum := FromString(parse, env.pbsNodeNum.value, 1);
        if nodelist.items == [] {
          r := ReadNodefile(env.pbsNodeFile, contents, nodelist, haveMpi);
          if r.Fail? {
            return;
          }
        } else {
          ReadNodelist(nodelist.items);
        }
        if env.pbsNumPpn.Some? {
          numThreads := FromString(parse, env.pbsNumPpn.value, Unknown as SizeT);
        }
      }
    }

    /** read_nodefile: count the distinct non-empty lines; fill an empty node list with them. */
    method ReadNodefile(nodeFile: Option<string>, contents: Option<seq<string>>, nodelist: NodeList, haveMpi: bool)
      returns (r: Outcome<Error>)
      modifies this, nodelist
      ensures (Snapshot(nodelist), r) == ReadNodefileSpec(old(Snapshot(nodelist)), nodeFile, contents, haveMpi)
    {
      if nodeFile.None? {
        valid := false;
        return Pass;
      }
      if contents.Some? {
        var lines := contents.value;
        var nodes: set<string> := {};
        var fill := nodelist.items == [];
        var i := 0;
        while i < |lines|
          invariant 0 <= i <= |lines|
          invariant nodes == Hosts(lines[..i])
          invariant nodelist.items == old(nodelist.items) + (if fill then FirstOccurrences(lines[..i]) else [])
          invariant nodeNum == old(nodeNum) && numLocalities == old(numLocalities)
          invariant numThreads == old(numThreads) && valid == old(valid)
        {
          var line := lines[i];
          ScanStep(lines, i);
          if line != "" {
            if line !in nodes {
              nodes := nodes + {line};
              if fill {
                nodelist.items := nodelist.items + [line];
              }
            }
          }
          i := i + 1;
        }
        assert lines[..|lines|] == lines;
        numLocalities := |nodes|;
        return Pass;
      }
      if haveMpi {
        return Pass;
      }
      return Fail(CommandLineError(CouldNotOpenMessage(nodeFile.value)));
    }

    /** read_nodelist: count the distinct non-empty entries of a non-empty node list. */
    method ReadNodelist(nodelist: seq<string>)
      modifies this
      ensures State(nodeNum, numLocalities, numThreads, valid, nodelist) ==
        ReadNodelistSpec(State(old(nodeNum), old(numLocalities), old(numThreads), old(valid), nodelist))
    {
      if nodelist == [] {
        valid := false;
        return;
      }
      var nodes: set<string> := {};
      var i := 0;
      while i < |nodelist|
        invariant 0 <= i <= |nodelist|
        invariant nodes == Hosts(nodelist[..i])
      {
        assert nodelist[..i + 1] == nodelist[..i] + [nodelist[i]];
        if nodelist[i] != "" && nodelist[i] !in nodes {
          nodes := nodes + {nodelist[i]};
        }
        i := i + 1;
      }
      assert nodelist[..|nodelist|] == nodelist;
      numLocalities := |nodes|;
    }
  }

  // ---------------------------------------------------------------------
  // Properties of the constructor

  /** Without PBS_NODENUM the environment is invalid and nothing is known. */
  lemma NoNodeNumber(env: Environment, contents: Option<seq<string>>, nodelist: seq<string>,
                     haveMpi: bool, parse: string -> Option<SizeT>)
    requires env.pbsNodeNum.None?
    ensures var (s, r) := Configure(env, contents, nodelist, haveMpi, parse);
      !s.valid && s.nodeNum == Unknown && s.numLocalities == Unknown && s.numThreads == Unknown &&
      s.nodelist == nodelist && r == Pass
  {
  }

  /** An empty node list marks the environment invalid and keeps the locality count. */
  lemma EmptyNodelistInvalid(s: State)
    requires s.nodelist == []
    ensures ReadNodelistSpec(s) == s.(valid := false)
  {
  }

  /** A node list given by the caller is kept, and the localities are its distinct hosts. */
  lemma {:induction false} GivenNodelistCounted(env: Environment, contents: Option<seq<string>>, nodelist: seq<string>,
                               haveMpi: bool, parse: string -> Option<SizeT>)
    requires env.pbsNodeNum.Some? && nodelist != []
    ensures var (s, r) := Configure(env, contents, nodelist, haveMpi, parse);
      s.valid && r == Pass && s.nodelist == nodelist &&
      s.numLocalities == |Hosts(nodelist)| == |FirstOccurrences(nodelist)|
  {
    FirstOccurrencesAreHosts(nodelist);
  }

  /**
   * With an empty node list and a readable node file, the node list
   * receives each host of the file once, and the localities are counted.
   */
  lemma {:induction false} NodefileFillsNodelist(env: Environment, lines: seq<string>,
                                haveMpi: bool, parse: string -> Option<SizeT>)
    requires env.pbsNodeNum.Some? && env.pbsNodeFile.Some?
    ensures var (s, r) := Configure(env, Some(lines), [], haveMpi, parse);
      s.valid && r == Pass && s.numLocalities == |Hosts(lines)| == |s.nodelist| &&
      Distinct(s.nodelist) && (forall x :: x in s.nodelist <==> x in lines && x != "")
  {
    FirstOccurrencesAreHosts(lines);
  }

  /** A missing PBS_NODEFILE invalidates; an unreadable one is an error unless MPI is active. */
  lemma NodefileMissing(env: Environment, contents: Option<seq<string>>,
                        haveMpi: bool, parse: string -> Option<SizeT>)
    requires env.pbsNodeNum.Some?
    ensures env.pbsNodeFile.None? ==> !Configure(env, contents, [], haveMpi, parse).0.valid
    ensures env.pbsNodeFile.Some? && contents.None? ==>
      (Configure(env, contents, [], haveMpi, parse).1.Fail? <==> !haveMpi)
    ensures env.pbsNodeFile.Some? && contents.None? && !haveMpi ==>
      Configure(env, contents, [], haveMpi, parse).1 ==
        Fail(CommandLineError(CouldNotOpenMessage(env.pbsNodeFile.value)))
  {
  }
}
