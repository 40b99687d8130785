/** The riddle graph of linker.py: the Riddle class (linker.py:21-57), the
    dependency linking pass (linker.py:138-140) and the resolution loop
    (linker.py:143-153). */
module Riddles {
  import opened Wrappers
  import opened PyStrings
  import LinkPayload

  /** Why resolution stops. linker.py raises (TypeError, IndexError) or exits. */
  datatype ResolveError =
    | UnresolvedDependency  // `data.replace(name, None)` raises TypeError
    | EmptyRiddleData       // `"".splitlines()[0]` raises IndexError in get_uri
    | CyclingDependency     // "ERROR: cycling dependency", exit code 1

  /** What linker.py takes from its environment and from foreign code: the two
      destination URIs, Python's float() test, LZString's compressToBase64 and
      the Shlink call, modelled as a total function; the exceptions
      shorten_url can raise are left out. */
  datatype Config = Config(
    treasureFinderUri: string,
    onTheQuizzUri: string,
    isFloat: string -> bool,
    compressToBase64: string -> string,
    shortenUrl: string -> string)

  class Riddle {
    const linkName: string
    const data: string
    var dependencies: seq<Riddle>
    var link: Option<string>

    constructor (linkName: string, data: string)
      ensures this.linkName == linkName && this.data == data
      ensures dependencies == [] && link == None
    {
      this.linkName := linkName;
      this.data := data;
      dependencies := [];
      link := None;
    }

    predicate Resolved()
      reads this
    {
      link.Some?
    }

    predicate Resolvable()
      reads this, dependencies
    {
      !Resolved() && forall d :: d in dependencies ==> d.Resolved()
    }

    /** get_uri: the Treasure Finder URI when the first line of the data
        parses as a float, the On The Quizz URI otherwise; None where Python
        raises IndexError, which is exactly when the data is empty. */
    function GetUri(config: Config): (uri: Option<string>)
      ensures uri.None? <==> data == []
      ensures uri.Some? ==> uri.value == config.treasureFinderUri || uri.value == config.onTheQuizzUri
      // the choice is made on the first line alone: the text before the first
      // line boundary
      ensures uri.Some? && config.isFloat(TakeLine(data)) ==> uri.value == config.treasureFinderUri
      ensures uri.Some? && !config.isFloat(TakeLine(data)) ==> uri.value == config.onTheQuizzUri
    {
      DestinationUri(config, data)
    }

    /** link_dependencies: appends, in the order of `others`, every riddle
        whose name occurs in this riddle's data (itself included). */
    method LinkDependencies(others: seq<Riddle>)
      modifies this`dependencies
      ensures dependencies == old(dependencies) + Mentioned(data, others)
    {
      for i := 0 to |others|
        invariant dependencies == old(dependencies) + Mentioned(data, others[..i])
      {
        assert others[..i + 1][..i] == others[..i];
        if Contains(data, others[i].linkName) {
          dependencies := dependencies + [others[i]];
        }
      }
      assert others[..|others|] == others;
    }

    /** resolve: substitutes every dependency's link for its name, in
        dependency order, and sets `link` to the shortened custom link. */
    method Resolve(config: Config) returns (outcome: Outcome<ResolveError>)
      modifies this`link
      ensures outcome == if !old(AllResolved(dependencies)) then Fail(UnresolvedDependency)
                         else if data == [] then Fail(EmptyRiddleData)
                         else Pass
      ensures outcome.Fail? ==> unchanged(this)
      ensures outcome.Pass? ==> link == Some(old(PublishedLink(config, data, dependencies)))
    {
      var text := data;
      var i := 0;
      while i < |dependencies|
        invariant 0 <= i <= |dependencies|
        invariant link == old(link)
        invariant AllResolved(dependencies[..i])
        invariant text == Substitute(data, Bindings(dependencies[..i]))
      {
        var dependency := dependencies[i];
        assert dependencies[..i + 1][..i] == dependencies[..i];
        if dependency.link.None? {
          assert !dependency.Resolved() && dependency in dependencies;
          return Fail(UnresolvedDependency);
        }
        text := ReplaceAll(text, dependency.linkName, dependency.link.value);
        assert Bindings(dependencies[..i + 1])[..i] == Bindings(dependencies[..i]);
        i := i + 1;
      }
      assert dependencies[..i] == dependencies;
      var uri := GetUri(config);
      if uri.None? {
        return Fail(EmptyRiddleData);
      }
      link := Some(config.shortenUrl(LinkPayload.CustomLink(uri.value, text, config.compressToBase64)));
      outcome := Pass;
    }
  }

  /** The destination URI get_uri picks for this data; None where the first
      line does not exist. */
  function DestinationUri(config: Config, data: string): Option<string> {
    match FirstLine(data)
    case None => None
    case Some(line) =>
      Some(if config.isFloat(line) then config.treasureFinderUri else config.onTheQuizzUri)
  }

  predicate AllResolved(riddles: seq<Riddle>)
    reads riddles
  {
    forall d :: d in riddles ==> d.Resolved()
  }

  predicate Distinct(riddles: seq<Riddle>) {
    forall i, j :: 0 <= i < j < |riddles| ==> riddles[i] != riddles[j]
  }

  /** The riddles of `others`, in their order, whose name occurs in `data`. */
  function Mentioned(data: string, others: seq<Riddle>): seq<Riddle> {
    if others == [] then []
    else
      var last := others[|others| - 1];
      Mentioned(data, others[..|others| - 1])
      + (if Contains(data, last.linkName) then [last] else [])
  }

  /** The positions in `others` of the riddles whose name occurs in `data`. */
  function MentionedPositions(data: string, others: seq<Riddle>): (positions: seq<nat>)
    ensures forall k :: 0 <= k < |positions| ==> positions[k] < |others|
    ensures forall k, l :: 0 <= k < l < |positions| ==> positions[k] < positions[l]
    ensures forall i :: i in positions <==> 0 <= i < |others| && Contains(data, others[i].linkName)
  {
    if others == [] then []
    else
      var n := |others| - 1;
      MentionedPositions(data, others[..n])
      + (if Contains(data, others[n].linkName) then [n] else [])
  }

  /** Linking keeps exactly the mentioned riddles, in list order. */
  lemma {:induction false} MentionedInListOrder(data: string, others: seq<Riddle>)
    ensures var positions := MentionedPositions(data, others);
            |Mentioned(data, others)| == |positions|
            && forall k :: 0 <= k < |positions| ==> Mentioned(data, others)[k] == others[positions[k]]
  {
    if others != [] {
      var n := |others| - 1;
      MentionedInListOrder(data, others[..n]);
    }
  }

  /** A riddle depends on `other` exactly when other's name is a substring of
      its data; a riddle whose data holds its own name depends on itself. */
  lemma {:induction false} MentionedExactly(data: string, others: seq<Riddle>)
    ensures forall o :: o in Mentioned(data, others) <==> o in others && Contains(data, o.linkName)
  {
    if others != [] {
      var n := |others| - 1;
      MentionedExactly(data, others[..n]);
      assert others == others[..n] + [others[n]];
    }
  }

  /** s repeated n times. */
  function Repeat(s: seq<Riddle>, n: nat): seq<Riddle> {
    if n == 0 then [] else Repeat(s, n - 1) + s
  }

  /** How many times x occurs in s. */
  function Occurrences(s: seq<Riddle>, x: Riddle): nat {
    if s == [] then 0
    else Occurrences(s[..|s| - 1], x) + (if s[|s| - 1] == x then 1 else 0)
  }

  /** In a list without repetition a listed riddle occurs exactly once. */
  lemma {:induction false} DistinctOccursOnce(riddles: seq<Riddle>, r: Riddle)
    requires Distinct(riddles) && r in riddles
    ensures Occurrences(riddles, r) == 1
  {
    var n := |riddles| - 1;
    if riddles[n] == r {
      NotOccurring(riddles[..n], r);
    } else {
      DistinctOccursOnce(riddles[..n], r);
    }
  }

  lemma {:induction false} NotOccurring(s: seq<Riddle>, x: Riddle)
    requires x !in s
    ensures Occurrences(s, x) == 0
  {
    if s != [] {
      NotOccurring(s[..|s| - 1], x);
    }
  }

  lemma RepeatOnceMore(prefix: seq<Riddle>, s: seq<Riddle>, n: nat)
    ensures prefix + Repeat(s, n) + s == prefix + Repeat(s, n + 1)
  {
  }

  /** link_all_riddles: every riddle gets the mentioned riddles of the whole
      list appended once per occurrence of itself in the list. */
  method LinkAllRiddles(riddles: seq<Riddle>)
    modifies riddles
    ensures forall r :: r in riddles ==> r.link == old(r.link)
    ensures forall r :: r in riddles ==>
              r.dependencies == old(r.dependencies) + Repeat(Mentioned(r.data, riddles), Occurrences(riddles, r))
    ensures Distinct(riddles) ==>
              forall r :: r in riddles ==> r.dependencies == old(r.dependencies) + Mentioned(r.data, riddles)
  {
    for i := 0 to |riddles|
      invariant forall r :: r in riddles ==> r.link == old(r.link)
      invariant forall r :: r in riddles ==>
                  r.dependencies == old(r.dependencies) + Repeat(Mentioned(r.data, riddles), Occurrences(riddles[..i], r))
    {
      var riddle := riddles[i];
      assert riddles[..i + 1][..i] == riddles[..i];
      label Before:
      riddle.LinkDependencies(riddles);
      forall r | r in riddles
        ensures r.dependencies
                == old(r.dependencies) + Repeat(Mentioned(r.data, riddles), Occurrences(riddles[..i + 1], r))
      {
        var mentioned := Mentioned(r.data, riddles);
        var counted := Occurrences(riddles[..i], r);
        assert old@Before(r.dependencies) == old(r.dependencies) + Repeat(mentioned, counted);
        if r == riddle {
          RepeatOnceMore(old(r.dependencies), mentioned, counted);
        } else {
          assert r.dependencies == old@Before(r.dependencies);
        }
      }
    }
    assert riddles[..|riddles|] == riddles;
    if Distinct(riddles) {
      forall r | r in riddles
        ensures r.dependencies == old(r.dependencies) + Mentioned(r.data, riddles)
      {
        DistinctOccursOnce(riddles, r);
        assert Repeat(Mentioned(r.data, riddles), 1) == Mentioned(r.data, riddles);
      }
    }
  }

  /** The (name, link) pairs of resolved dependencies, in dependency order. */
  function Bindings(dependencies: seq<Riddle>): (bindings: seq<(string, string)>)
    reads dependencies
    requires AllResolved(dependencies)
    ensures |bindings| == |dependencies|
  {
    seq(|dependencies|, i reads dependencies requires 0 <= i < |dependencies| && AllResolved(dependencies) =>
      assert dependencies[i].Resolved();
      (dependencies[i].linkName, dependencies[i].link.value))
  }

  /** The text resolve publishes: each name replaced by its link, one
      `str.replace` per pair, in order. */
  function Substitute(text: string, bindings: seq<(string, string)>): string {
    if bindings == [] then text
    else
      var n := |bindings| - 1;
      ReplaceAll(Substitute(text, bindings[..n]), bindings[n].0, bindings[n].1)
  }

  /** The link resolve stores for a riddle with this data and these resolved
      dependencies. */
  function PublishedLink(config: Config, data: string, dependencies: seq<Riddle>): string
    reads dependencies
    requires AllResolved(dependencies) && data != []
  {
    var uri := DestinationUri(config, data).value;
    config.shortenUrl(LinkPayload.CustomLink(uri, Substitute(data, Bindings(dependencies)), config.compressToBase64))
  }

  /** Names that do not occur in the text leave it unchanged, whatever they
      are replaced by. */
  lemma {:induction false} SubstituteUnmentioned(text: string, bindings: seq<(string, string)>)
    requires forall i :: 0 <= i < |bindings| ==> bindings[i].0 != [] && !Contains(text, bindings[i].0)
    ensures Substitute(text, bindings) == text
  {
    if bindings != [] {
      var n := |bindings| - 1;
      SubstituteUnmentioned(text, bindings[..n]);
      ReplaceAbsent(text, bindings[n].0, bindings[n].1);
    }
  }

  /** The links of dependencies whose names the data does not mention do not
      reach the published link: it is the link of the data as it is. */
  lemma PublishedLinkUnmentioned(config: Config, data: string, dependencies: seq<Riddle>)
    requires AllResolved(dependencies) && data != []
    requires forall i :: 0 <= i < |dependencies| ==>
               dependencies[i].linkName != [] && !Contains(data, dependencies[i].linkName)
    ensures PublishedLink(config, data, dependencies) == PublishedLink(config, data, [])
  {
    SubstituteUnmentioned(data, Bindings(dependencies));
  }

  /** The URI of a riddle whose data is a newline-join of lines without line
      boundaries (as parse_data_file builds it from splitlines) is chosen by
      the first of those lines. */
  lemma UriOfJoinedLines(r: Riddle, lines: seq<string>, config: Config)
    requires r.data == JoinLines(lines)
    requires forall k :: 0 <= k < |lines| ==> NoLineBoundary(lines[k])
    ensures r.GetUri(config)
            == if lines == [] || lines == [""] then None
               else Some(if config.isFloat(lines[0]) then config.treasureFinderUri else config.onTheQuizzUri)
  {
    FirstLineOfJoin(lines);
  }

  /** `[riddle for riddle in riddles if riddle.resolvable]`, of which the
      loop only uses the first element. */
  method FirstResolvable(riddles: seq<Riddle>) returns (first: Option<nat>)
    ensures first.Some? ==>
              first.value < |riddles| && riddles[first.value].Resolvable()
              && forall j :: 0 <= j < first.value ==> !riddles[j].Resolvable()
    ensures first.None? ==> forall j :: 0 <= j < |riddles| ==> !riddles[j].Resolvable()
  {
    var i := 0;
    while i < |riddles|
      invariant 0 <= i <= |riddles|
      invariant forall j :: 0 <= j < i ==> !riddles[j].Resolvable()
    {
      if riddles[i].Resolvable() {
        return Some(i);
      }
      i := i + 1;
    }
    return None;
  }

  /** Each riddle of `order` comes after those of its dependencies that are
      also in `order`. */
  predicate DependenciesFirst(order: seq<Riddle>)
    reads order
  {
    forall k, d :: 0 <= k < |order| && d in order[k].dependencies && d in order ==> d in order[..k]
  }

  /** Appending a riddle that no listed riddle depends on, and that does not
      depend on itself, keeps dependencies first. */
  lemma DependenciesFirstAppend(order: seq<Riddle>, r: Riddle)
    requires DependenciesFirst(order) && r !in r.dependencies
    requires forall x :: x in order ==> r !in x.dependencies
    ensures DependenciesFirst(order + [r])
  {
    var extended := order + [r];
    forall k, d | 0 <= k < |extended| && d in extended[k].dependencies && d in extended
      ensures d in extended[..k]
    {
      assert extended[..|order|] == order;
      if k < |order| {
        assert extended[k] == order[k] && extended[..k] == order[..k];
      }
    }
  }

  /** A riddle whose data holds its own name depends on itself, so it can
      never come after all of its dependencies. */
  lemma SelfDependentNeverOrdered(order: seq<Riddle>)
    requires Distinct(order) && DependenciesFirst(order)
    ensures forall r :: r in order ==> r !in r.dependencies
  {
    forall r | r in order
      ensures r !in r.dependencies
    {
      var k :| 0 <= k < |order| && order[k] == r;
      assert forall j :: 0 <= j < k ==> order[j] != r;
      assert r !in order[..k];
    }
  }

  lemma DistinctAppend(order: seq<Riddle>, r: Riddle)
    requires Distinct(order) && r !in order
    ensures Distinct(order + [r])
  {
  }

  /** A list of distinct riddles drawn from `pool` is no longer than `pool`. */
  lemma {:induction false} DistinctWithin(order: seq<Riddle>, pool: set<Riddle>)
    requires Distinct(order) && forall r :: r in order ==> r in pool
    ensures |order| <= |pool|
  {
    if order != [] {
      var n := |order| - 1;
      var last := order[n];
      assert last !in order[..n];
      DistinctWithin(order[..n], pool - {last});
    }
  }

  /** Every dependency of a riddle of the list. */
  function DependencySet(riddles: seq<Riddle>): (dependencies: set<Riddle>)
    reads riddles
    ensures forall r, d :: r in riddles && d in r.dependencies ==> d in dependencies
  {
    set r, d | r in riddles && d in r.dependencies :: d
  }

  /** What holds between two rounds of resolve_all_riddles: `order` lists,
      once each, the riddles of `pending` (those unresolved when the run
      started) that are resolved by now, each after the dependencies it shares
      with `order`, and each holding the link resolve gave it. */
  ghost predicate Progress(riddles: seq<Riddle>, pending: set<Riddle>, order: seq<Riddle>, config: Config)
    reads riddles, order, DependencySet(riddles)
  {
    (forall r :: r in riddles && r.link.None? ==> r in pending)
    && (forall r :: r in pending ==> r in riddles && (r.link.Some? ==> r in order))
    && (forall r :: r in order ==> r in pending && Published(r, config))
    && Distinct(order)
    && DependenciesFirst(order)
  }

  /** The riddle holds the link resolve computes from its data and from the
      links of its dependencies, which are all resolved. */
  predicate Published(r: Riddle, config: Config)
    reads r, r.dependencies
  {
    r.link.Some? && r.data != [] && AllResolved(r.dependencies)
    && r.link.value == PublishedLink(config, r.data, r.dependencies)
  }

  /** `done` is exactly the set of resolved riddles among the riddles and
      their dependencies. */
  ghost predicate Tracks(riddles: seq<Riddle>, done: set<Riddle>)
    reads riddles, DependencySet(riddles)
  {
    (forall r :: r in riddles ==> (r.link.Some? <==> r in done))
    && (forall r, d :: r in riddles && d in r.dependencies ==> (d.link.Some? <==> d in done))
  }

  /** r would be resolvable if exactly the riddles of `done` were resolved. */
  predicate ReadyGiven(r: Riddle, done: set<Riddle>)
    reads r`dependencies
  {
    r !in done && forall d :: d in r.dependencies ==> d in done
  }

  /** Resolvable is ReadyGiven the set of resolved riddles. */
  lemma ReadyIffResolvable(riddles: seq<Riddle>, done: set<Riddle>)
    requires Tracks(riddles, done)
    ensures forall j :: 0 <= j < |riddles| ==> (riddles[j].Resolvable() <==> ReadyGiven(riddles[j], done))
  {
    forall j | 0 <= j < |riddles|
      ensures riddles[j].Resolvable() <==> ReadyGiven(riddles[j], done)
    {
      assert riddles[j] in riddles;
    }
  }

  /** Given the resolved riddles, the first resolvable riddle is the first
      ready one. */
  lemma FirstReadyIsFirstResolvable(riddles: seq<Riddle>, done: set<Riddle>, k: int)
    requires Tracks(riddles, done) && 0 <= k < |riddles|
    requires riddles[k].Resolvable() && forall j :: 0 <= j < k ==> !riddles[j].Resolvable()
    ensures FirstReady(riddles, done, k)
  {
    ReadyIffResolvable(riddles, done);
  }

  /** riddles[k] is the first riddle of the list that is ready given `done`:
      the one `available[0]` picks. */
  predicate FirstReady(riddles: seq<Riddle>, done: set<Riddle>, k: int)
    reads riddles`dependencies
  {
    0 <= k < |riddles| && ReadyGiven(riddles[k], done)
    && forall j :: 0 <= j < k ==> !ReadyGiven(riddles[j], done)
  }

  /** What is resolved when round m starts: the riddles resolved before the
      loop and those of the first m rounds. */
  ghost function DoneBefore(resolvedBefore: set<Riddle>, order: seq<Riddle>, m: nat): set<Riddle>
    requires m <= |order|
  {
    resolvedBefore + Members(order[..m])
  }

  /** The set of elements of a sequence. */
  ghost function Members<T>(s: seq<T>): set<T>
  {
    set x | x in s
  }

  lemma MembersAppend<T>(s: seq<T>, x: T)
    ensures Members(s + [x]) == Members(s) + {x}
  {
  }

  /** Every round m resolved the first riddle of the list that was ready when
      the round started. */
  ghost predicate Greedy(riddles: seq<Riddle>, resolvedBefore: set<Riddle>, order: seq<Riddle>)
    reads riddles`dependencies
  {
    forall m :: 0 <= m < |order| ==>
      exists k :: FirstReady(riddles, DoneBefore(resolvedBefore, order, m), k) && riddles[k] == order[m]
  }

  /** A round that resolves the first ready riddle extends a greedy order. */
  lemma GreedyExtend(riddles: seq<Riddle>, resolvedBefore: set<Riddle>, order: seq<Riddle>, k: int)
    requires Greedy(riddles, resolvedBefore, order)
    requires FirstReady(riddles, resolvedBefore + Members(order), k)
    ensures Greedy(riddles, resolvedBefore, order + [riddles[k]])
    ensures resolvedBefore + Members(order + [riddles[k]]) == resolvedBefore + Members(order) + {riddles[k]}
  {
    var extended := order + [riddles[k]];
    assert order[..|order|] == order;
    MembersAppend(order, riddles[k]);
    forall m | 0 <= m < |extended|
      ensures exists i :: FirstReady(riddles, DoneBefore(resolvedBefore, extended, m), i) && riddles[i] == extended[m]
    {
      assert extended[..m] == order[..m];
      if m < |order| {
        var i :| FirstReady(riddles, DoneBefore(resolvedBefore, order, m), i) && riddles[i] == order[m];
        assert FirstReady(riddles, DoneBefore(resolvedBefore, extended, m), i);
      } else {
        assert FirstReady(riddles, DoneBefore(resolvedBefore, extended, m), k);
      }
    }
  }

  /** One round of the resolve_all_riddles loop: resolve the first resolvable
      riddle, or report a cycle when no riddle is resolvable. */
  method ResolveFirst(riddles: seq<Riddle>, config: Config, ghost pending: set<Riddle>, ghost order: seq<Riddle>,
                      ghost resolvedBefore: set<Riddle>)
    returns (outcome: Outcome<ResolveError>, ghost extended: seq<Riddle>)
    requires Progress(riddles, pending, order, config) && !AllResolved(riddles)
    requires Tracks(riddles, resolvedBefore + Members(order)) && Greedy(riddles, resolvedBefore, order)
    modifies riddles
    // the riddle resolved is the first resolvable one, and nothing else changes
    ensures outcome.Pass? ==>
              exists k :: FirstReady(riddles, resolvedBefore + Members(order), k) && extended == order + [riddles[k]]
    ensures Tracks(riddles, resolvedBefore + Members(extended)) && Greedy(riddles, resolvedBefore, extended)
    ensures forall r :: r in riddles ==> r.dependencies == old(r.dependencies)
    ensures forall r :: r in riddles && old(r.link).Some? ==> r.link == old(r.link)
    ensures Progress(riddles, pending, extended, config)
    ensures outcome.Pass? ==> |extended| == |order| + 1
    ensures outcome.Fail? ==> extended == order && !AllResolved(riddles) && outcome != Fail(UnresolvedDependency)
    ensures outcome == Fail(CyclingDependency) ==> forall r :: r in riddles ==> !r.Resolvable()
    ensures outcome == Fail(EmptyRiddleData) ==>
              exists k :: 0 <= k < |riddles| && riddles[k].Resolvable() && riddles[k].data == []
                          && forall j :: 0 <= j < k ==> !riddles[j].Resolvable()
  {
    ghost var done := resolvedBefore + Members(order);
    var first := FirstResolvable(riddles);
    if first.None? {
      forall r | r in riddles
        ensures !r.Resolvable()
      {
        var j :| 0 <= j < |riddles| && riddles[j] == r;
      }
      return Fail(CyclingDependency), order;
    }
    var k := first.value;
    FirstReadyIsFirstResolvable(riddles, done, k);
    outcome, extended := ResolveAt(riddles, config, pending, order, done, k);
    if outcome.Fail? {
      assert riddles[k] in riddles && !riddles[k].Resolved();
    } else {
      GreedyExtend(riddles, resolvedBefore, order, k);
    }
  }

  /** `available[0].resolve()`: resolve the riddle at index k, the first
      resolvable one. */
  method ResolveAt(riddles: seq<Riddle>, config: Config, ghost pending: set<Riddle>, ghost order: seq<Riddle>,
                   ghost done: set<Riddle>, k: nat)
    returns (outcome: Outcome<ResolveError>, ghost extended: seq<Riddle>)
    requires Progress(riddles, pending, order, config)
    requires Tracks(riddles, done)
    requires k < |riddles| && riddles[k].Resolvable()
    requires forall j :: 0 <= j < k ==> !riddles[j].Resolvable()
    modifies riddles[k]
    ensures riddles[k].dependencies == old(riddles[k].dependencies)
    ensures forall r :: r in riddles && old(r.link).Some? ==> r.link == old(r.link)
    ensures Progress(riddles, pending, extended, config)
    ensures outcome.Pass? ==> |extended| == |order| + 1
    ensures outcome.Fail? ==> extended == order && outcome == Fail(EmptyRiddleData)
    ensures outcome.Fail? ==> riddles[k].link == old(riddles[k].link)
    ensures outcome.Pass? ==> extended == order + [riddles[k]] && Tracks(riddles, done + {riddles[k]})
    ensures outcome.Fail? ==> Tracks(riddles, done)
    ensures outcome.Fail? ==>
              riddles[k].Resolvable() && riddles[k].data == []
              && forall j :: 0 <= j < k ==> !riddles[j].Resolvable()
  {
    var riddle := riddles[k];
    assert riddle in pending && AllResolved(riddle.dependencies);
    outcome := riddle.Resolve(config);
    if outcome.Fail? {
      return outcome, order;
    }
    forall r | r in order || r == riddle
      ensures riddle !in r.dependencies && AllResolved(r.dependencies)
      ensures Bindings(r.dependencies) == old(Bindings(r.dependencies))
    {
    }
    DistinctAppend(order, riddle);
    DependenciesFirstAppend(order, riddle);
    forall r | r in riddles
      ensures r.link.Some? <==> r in done + {riddle}
    {
    }
    forall r, d | r in riddles && d in r.dependencies
      ensures d.link.Some? <==> d in done + {riddle}
    {
    }
    return Pass, order + [riddle];
  }

  /** resolve_all_riddles: while some riddle is unresolved, resolve the first
      resolvable one, or stop with a cycle error when there is none. `order`
      lists the riddles in the order this call resolved them. */
  method ResolveAllRiddles(riddles: seq<Riddle>, config: Config)
    returns (outcome: Outcome<ResolveError>, ghost order: seq<Riddle>, ghost resolvedBefore: set<Riddle>)
    modifies riddles
    ensures forall r :: r in riddles ==> r.dependencies == old(r.dependencies)
    // each round resolved the first riddle of the list that was resolvable
    // when the round started
    ensures forall r :: r in riddles ==> (r in resolvedBefore <==> old(r.link).Some?)
    ensures forall r, d :: r in riddles && d in r.dependencies ==> (d in resolvedBefore <==> old(d.link).Some?)
    ensures Greedy(riddles, resolvedBefore, order)
    // a link, once set, is never set again
    ensures forall r :: r in riddles && old(r.link).Some? ==> r.link == old(r.link)
    // one resolve per riddle that was unresolved and is now resolved
    ensures Distinct(order)
    ensures forall r :: r in order <==> r in riddles && old(r.link).None? && r.link.Some?
    // a riddle is resolved only after every one of its dependencies
    ensures DependenciesFirst(order)
    // each holds the link resolve computes from the final links of its dependencies
    ensures forall r :: r in order ==> Published(r, config)
    ensures outcome.Pass? <==> AllResolved(riddles)
    ensures outcome != Fail(UnresolvedDependency)
    ensures outcome == Fail(CyclingDependency) ==> forall r :: r in riddles ==> !r.Resolvable()
    ensures outcome == Fail(EmptyRiddleData) ==>
              exists k :: 0 <= k < |riddles| && riddles[k].Resolvable() && riddles[k].data == []
                          && forall j :: 0 <= j < k ==> !riddles[j].Resolvable()
    // an unresolved riddle that depends on itself stays unresolved, and the run fails
    ensures forall r :: r in riddles && old(r.link).None? && r in r.dependencies ==> r.link.None? && outcome.Fail?
  {
    ghost var pending := set r | r in riddles && r.link.None?;
    resolvedBefore := set x | (x in riddles || x in DependencySet(riddles)) && x.link.Some?;
    outcome := Pass;
    order := [];
    assert Members(order) == {};
    while exists r :: r in riddles && !r.Resolved()
      invariant forall r :: r in riddles ==> r.dependencies == old(r.dependencies)
      invariant forall r :: r in riddles && old(r.link).Some? ==> r.link == old(r.link)
      invariant Progress(riddles, pending, order, config)
      invariant outcome == Pass
      invariant Tracks(riddles, resolvedBefore + Members(order))
      invariant Greedy(riddles, resolvedBefore, order)
      decreases |pending| - |order|
    {
      DistinctWithin(order, pending);
      outcome, order := ResolveFirst(riddles, config, pending, order, resolvedBefore);
      if outcome.Fail? {
        break;
      }
    }
    SelfDependentNeverOrdered(order);
  }
}
