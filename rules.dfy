// The routing table of pkg/rules/rules.go: building it from the
// configuration, compiling each rule's matchers, matching a record against
// a rule, and routing a record through the rules in order.
//
// Two collaborators are not part of this model and appear only at their
// boundary: Go's regexp package (`RegexEngine`: whether a pattern compiles
// and whether a compiled pattern matches a path) and the prefix trie, whose
// source is not shown; the trie is modelled by its abstract value, the list
// of inserted prefixes, under the stated meaning of its `Check`: some
// inserted prefix is a prefix of the path.

module Rules {
  import opened Wrappers
  import opened Bytes
  import opened Rec

  /** A destination cluster. `id` stands for the identity of the Go
      `ClusterTarget` value, which is what de-duplication compares. */
  datatype ClusterTarget = ClusterTarget(id: nat, name: string)

  /** One rule as the configuration declares it. Go strings are byte
      strings, so the prefixes are kept as bytes. */
  datatype RuleConf = RuleConf(
    regexs: seq<string>,
    prefixes: seq<seq<byte>>,
    clusters: seq<string>,
    continues: bool)

  /** The regular-expression engine: which patterns compile, and which
      compiled patterns match which paths. */
  datatype RegexEngine = RegexEngine(
    compiles: string -> bool,
    matches: (string, seq<byte>) -> bool)

  /** A compiled regular expression, known by its source text. */
  datatype Regexp = Regexp(expr: string)

  /** PrefixTrie, by its abstract value: the prefixes inserted so far. */
  datatype PrefixTrie = PrefixTrie(prefixes: seq<seq<byte>>) {

    function Add(p: seq<byte>): PrefixTrie {
      PrefixTrie(prefixes + [p])
    }

    /** Some inserted prefix is a prefix of `path`. */
    predicate Check(path: seq<byte>) {
      exists i :: 0 <= i < |prefixes| && IsPrefix(prefixes[i], path)
    }
  }

  function NewPrefixTrie(): PrefixTrie {
    PrefixTrie([])
  }

  predicate IsPrefix(p: seq<byte>, s: seq<byte>) {
    |p| <= |s| && s[..|p|] == p
  }

  /** A routing rule. Before compilation `compiledRE` is empty and the trie
      holds nothing. */
  datatype Rule = Rule(
    regexs: seq<string>,
    prefixes: seq<seq<byte>>,
    targets: seq<ClusterTarget>,
    continues: bool,
    compiledRE: seq<Regexp>,
    prefixTrie: PrefixTrie)

  /** The routing table: rules in declaration order. */
  datatype Rules = Rules(rules: seq<Rule>, measureRegex: bool)

  datatype BuildError = UnknownCluster(name: string) | InvalidRegex(expr: string)

  // ---------------------------------------------------------------------
  // What building and compiling promise

  /** Every item of every list passes `ok`. */
  ghost predicate AllPass<T>(xss: seq<seq<T>>, ok: T -> bool) {
    forall i, j :: 0 <= i < |xss| && 0 <= j < |xss[i]| ==> ok(xss[i][j])
  }

  /** Item `j` of list `i` is the first one, in list order and then item
      order, that fails `ok`. */
  ghost predicate FirstFailureAt<T>(xss: seq<seq<T>>, ok: T -> bool, i: nat, j: nat) {
    && i < |xss| && j < |xss[i]| && !ok(xss[i][j])
    && (forall i', j' :: 0 <= i' < i && 0 <= j' < |xss[i']| ==> ok(xss[i'][j']))
    && (forall j' :: 0 <= j' < j ==> ok(xss[i][j']))
  }

  /** The list `f` picks out of each element of `xs`, in order. */
  function Project<X>(xs: seq<X>, f: X -> seq<string>): (xss: seq<seq<string>>)
    ensures |xss| == |xs| && forall i :: 0 <= i < |xs| ==> xss[i] == f(xs[i])
  {
    seq(|xs|, i requires 0 <= i < |xs| => f(xs[i]))
  }

  function ClusterNames(crs: seq<RuleConf>): seq<seq<string>> {
    Project(crs, (cr: RuleConf) => cr.clusters)
  }

  function RegexSources(crs: seq<RuleConf>): seq<seq<string>> {
    Project(crs, (cr: RuleConf) => cr.regexs)
  }

  function RuleRegexSources(rules: seq<Rule>): seq<seq<string>> {
    Project(rules, (rl: Rule) => rl.regexs)
  }

  function Known(clusters: map<string, ClusterTarget>): string -> bool {
    name => name in clusters
  }

  /** The compiled forms of `regexs`, in the same order. */
  function CompileAll(regexs: seq<string>): (cs: seq<Regexp>)
    ensures |cs| == |regexs| && forall k :: 0 <= k < |regexs| ==> cs[k].expr == regexs[k]
  {
    seq(|regexs|, k requires 0 <= k < |regexs| => Regexp(regexs[k]))
  }

  /** The trie obtained by adding `ps` one by one to a new trie. */
  function TrieOf(ps: seq<seq<byte>>): PrefixTrie {
    if ps == [] then NewPrefixTrie() else TrieOf(ps[..|ps| - 1]).Add(ps[|ps| - 1])
  }

  /** `rl` with its matchers compiled. */
  function WithMatchers(rl: Rule): Rule {
    rl.(compiledRE := CompileAll(rl.regexs), prefixTrie := TrieOf(rl.prefixes))
  }

  /** `rl` is the compiled rule for declaration `cr`: the same regexes,
      prefixes and continue flag, the named clusters' targets in their
      order, one compiled regex per source in order, and a trie of
      exactly the declared prefixes. */
  ghost predicate BuiltFrom(rl: Rule, cr: RuleConf, clusters: map<string, ClusterTarget>) {
    && rl.regexs == cr.regexs && rl.prefixes == cr.prefixes && rl.continues == cr.continues
    && |rl.targets| == |cr.clusters|
    && (forall j :: 0 <= j < |cr.clusters| ==> cr.clusters[j] in clusters && rl.targets[j] == clusters[cr.clusters[j]])
    && |rl.compiledRE| == |cr.regexs|
    && (forall j :: 0 <= j < |cr.regexs| ==> rl.compiledRE[j].expr == cr.regexs[j])
    && rl.prefixTrie.prefixes == cr.prefixes
  }

  // ---------------------------------------------------------------------
  // Build and compile

  /** Build: resolve every rule's cluster names, in declaration order,
      failing on the first unknown one; then compile the table. */
  method Build(crs: seq<RuleConf>, clusters: map<string, ClusterTarget>, measureRegex: bool, re: RegexEngine)
    returns (r: Result<Rules, BuildError>)
    ensures r.Ok? <==> AllPass(ClusterNames(crs), Known(clusters)) && AllPass(RegexSources(crs), re.compiles)
    ensures r.Err? && r.error.UnknownCluster? <==> !AllPass(ClusterNames(crs), Known(clusters))
    ensures r.Err? && r.error.UnknownCluster? ==>
      exists i: nat, j: nat :: FirstFailureAt(ClusterNames(crs), Known(clusters), i, j) && r.error.name == crs[i].clusters[j]
    ensures r.Err? && r.error.InvalidRegex? ==>
      exists i: nat, j: nat :: FirstFailureAt(RegexSources(crs), re.compiles, i, j) && r.error.expr == crs[i].regexs[j]
    ensures r.Ok? ==>
      && r.value.measureRegex == measureRegex
      && |r.value.rules| == |crs|
      && forall i :: 0 <= i < |crs| ==> BuiltFrom(r.value.rules[i], crs[i], clusters)
  {
    var names := ClusterNames(crs);
    var rules := new Rule[|crs|];
    for i := 0 to |crs|
      invariant forall i', j' :: 0 <= i' < i && 0 <= j' < |names[i']| ==> Known(clusters)(names[i'][j'])
      invariant forall k :: 0 <= k < i ==> rules[k] == Unresolved(crs[k], clusters)
    {
      var cr := crs[i];
      var targets: seq<ClusterTarget> := [];
      for j := 0 to |cr.clusters|
        invariant |targets| == j
        invariant forall j' :: 0 <= j' < j ==> cr.clusters[j'] in clusters && targets[j'] == clusters[cr.clusters[j']]
      {
        var clName := cr.clusters[j];
        if clName !in clusters {
          assert FirstFailureAt(names, Known(clusters), i, j);
          return Err(UnknownCluster(clName));
        }
        targets := targets + [clusters[clName]];
      }
      rules[i] := Rule(cr.regexs, cr.prefixes, targets, cr.continues, [], NewPrefixTrie());
    }
    assert AllPass(names, Known(clusters));

    ghost var declared := rules[..];
    assert RuleRegexSources(declared) == RegexSources(crs);
    var err := Compile(rules, re);
    if err.Some? {
      return Err(err.value);
    }
    forall i | 0 <= i < |crs|
      ensures BuiltFrom(rules[i], crs[i], clusters)
    {
      TrieOfPrefixes(crs[i].prefixes);
    }
    return Ok(Rules(rules[..], measureRegex));
  }

  /** The rule Build declares for `cr` before compiling it. */
  ghost function Unresolved(cr: RuleConf, clusters: map<string, ClusterTarget>): Rule
    requires forall j :: 0 <= j < |cr.clusters| ==> cr.clusters[j] in clusters
  {
    Rule(cr.regexs, cr.prefixes, seq(|cr.clusters|, j requires 0 <= j < |cr.clusters| => clusters[cr.clusters[j]]),
         cr.continues, [], NewPrefixTrie())
  }

  /** compile: for each rule in place, compile its regexes in order
      (stopping at the first that does not compile) and build its trie. */
  method Compile(rules: array<Rule>, re: RegexEngine) returns (err: Option<BuildError>)
    modifies rules
    ensures err.None? <==> AllPass(RuleRegexSources(old(rules[..])), re.compiles)
    ensures err.None? ==> forall k :: 0 <= k < rules.Length ==> rules[k] == WithMatchers(old(rules[k]))
    ensures err.Some? ==> exists i: nat, j: nat ::
      && FirstFailureAt(RuleRegexSources(old(rules[..])), re.compiles, i, j)
      && err.value == InvalidRegex(old(rules[i]).regexs[j])
      && (forall k :: 0 <= k < i ==> rules[k] == WithMatchers(old(rules[k])))
      && rules[i] == old(rules[i]).(compiledRE := CompileAll(old(rules[i]).regexs[..j]))
      && (forall k :: i < k < rules.Length ==> rules[k] == old(rules[k]))
  {
    ghost var srcs := RuleRegexSources(rules[..]);
    for i := 0 to rules.Length
      invariant forall i', j' :: 0 <= i' < i && 0 <= j' < |srcs[i']| ==> re.compiles(srcs[i'][j'])
      invariant forall k :: 0 <= k < i ==> rules[k] == WithMatchers(old(rules[k]))
      invariant forall k :: i <= k < rules.Length ==> rules[k] == old(rules[k])
    {
      var bad := CompileRule(rules, i, re);
      if bad.Some? {
        assert FirstFailureAt(srcs, re.compiles, i, bad.value);
        return Some(InvalidRegex(rules[i].regexs[bad.value]));
      }
    }
    return None;
  }

  /** The body of compile's loop for rule `i`, in place: its regexes in
      order, stopping at the first one that does not compile (whose index
      is returned), then its trie. */
  method CompileRule(rules: array<Rule>, i: nat, re: RegexEngine) returns (bad: Option<nat>)
    requires i < rules.Length
    modifies rules
    ensures forall k :: 0 <= k < rules.Length && k != i ==> rules[k] == old(rules[k])
    ensures bad.None? <==> forall j :: 0 <= j < |old(rules[i]).regexs| ==> re.compiles(old(rules[i]).regexs[j])
    ensures bad.None? ==> rules[i] == WithMatchers(old(rules[i]))
    ensures bad.Some? ==>
      && bad.value < |old(rules[i]).regexs|
      && !re.compiles(old(rules[i]).regexs[bad.value])
      && (forall j :: 0 <= j < bad.value ==> re.compiles(old(rules[i]).regexs[j]))
      && rules[i] == old(rules[i]).(compiledRE := CompileAll(old(rules[i]).regexs[..bad.value]))
  {
    ghost var declared := rules[i];
    rules[i] := rules[i].(compiledRE := []);
    var regexs := rules[i].regexs;
    for j := 0 to |regexs|
      invariant forall j' :: 0 <= j' < j ==> re.compiles(regexs[j'])
      invariant rules[i] == declared.(compiledRE := CompileAll(regexs[..j]))
      invariant forall k :: 0 <= k < rules.Length && k != i ==> rules[k] == old(rules[k])
    {
      var src := regexs[j];
      if !re.compiles(src) {
        return Some(j);
      }
      assert CompileAll(regexs[..j + 1]) == CompileAll(regexs[..j]) + [Regexp(src)];
      rules[i] := rules[i].(compiledRE := rules[i].compiledRE + [Regexp(src)]);
    }
    assert regexs[..|regexs|] == regexs;

    rules[i] := rules[i].(prefixTrie := NewPrefixTrie());
    var prefixes := rules[i].prefixes;
    for j := 0 to |prefixes|
      invariant rules[i] == declared.(compiledRE := CompileAll(regexs), prefixTrie := TrieOf(prefixes[..j]))
      invariant forall k :: 0 <= k < rules.Length && k != i ==> rules[k] == old(rules[k])
    {
      assert prefixes[..j + 1][..j] == prefixes[..j];
      rules[i] := rules[i].(prefixTrie := rules[i].prefixTrie.Add(prefixes[j]));
    }
    assert prefixes[..|prefixes|] == prefixes;
    return None;
  }

  /** The trie built from a list of prefixes holds exactly that list. */
  lemma {:induction false} TrieOfPrefixes(ps: seq<seq<byte>>)
    ensures TrieOf(ps).prefixes == ps
  {
    if ps != [] {
      TrieOfPrefixes(ps[..|ps| - 1]);
    }
  }

  /** A compiled trie answers whether the path starts with a declared prefix. */
  lemma TrieChecksPrefixes(ps: seq<seq<byte>>, path: seq<byte>)
    ensures TrieOf(ps).Check(path) <==> exists p :: p in ps && IsPrefix(p, path)
  {
    TrieOfPrefixes(ps);
    if exists p :: p in ps && IsPrefix(p, path) {
      var p :| p in ps && IsPrefix(p, path);
      var i :| 0 <= i < |ps| && ps[i] == p;
      assert IsPrefix(TrieOf(ps).prefixes[i], path);
    }
  }

  // ---------------------------------------------------------------------
  // Matching

  /** A rule matches a path when its trie does or one of its compiled
      regexes does. */
  predicate Matches(rl: Rule, path: seq<byte>, re: RegexEngine) {
    rl.prefixTrie.Check(path) ||
    exists i :: 0 <= i < |rl.compiledRE| && re.matches(rl.compiledRE[i].expr, path)
  }

  /** MatchBytes: the trie first, then the regexes in order, stopping at
      the first hit. `tried` counts the regexes run (each is one latency
      observation when measuring is on). */
  method MatchBytes(rl: Rule, r: RecBytes, re: RegexEngine) returns (matched: bool, ghost tried: nat)
    ensures matched == Matches(rl, r.path, re)
    ensures rl.prefixTrie.Check(r.path) ==> tried == 0
    ensures !rl.prefixTrie.Check(r.path) ==>
      && tried <= |rl.compiledRE|
      && (forall k :: 0 <= k < tried - 1 ==> !re.matches(rl.compiledRE[k].expr, r.path))
      && (matched ==> 0 < tried && re.matches(rl.compiledRE[tried - 1].expr, r.path))
      && (!matched ==> tried == |rl.compiledRE|)
  {
    tried := 0;
    if rl.prefixTrie.Check(r.path) {
      return true, tried;
    }

    for idx := 0 to |rl.compiledRE|
      invariant tried == idx
      invariant forall k :: 0 <= k < idx ==> !re.matches(rl.compiledRE[k].expr, r.path)
    {
      var m := re.matches(rl.compiledRE[idx].expr, r.path);
      tried := tried + 1;
      if m {
        return true, tried;
      }
    }
    return false, tried;
  }

  // ---------------------------------------------------------------------
  // Routing

  /** The targets of the rules a record reaches, in order: every matched
      rule contributes its targets, and the first matched rule whose
      `continues` is false is the last one looked at. */
  function Selected(rules: seq<Rule>, path: seq<byte>, re: RegexEngine): seq<ClusterTarget> {
    if rules == [] then []
    else if Matches(rules[0], path, re) then
      rules[0].targets + (if rules[0].continues then Selected(rules[1..], path, re) else [])
    else Selected(rules[1..], path, re)
  }

  /** `xs` with every repeat of an earlier element left out. */
  function Dedup<T(==)>(xs: seq<T>): seq<T> {
    if xs == [] then []
    else
      var init := xs[..|xs| - 1];
      if xs[|xs| - 1] in init then Dedup(init) else Dedup(init) + [xs[|xs| - 1]]
  }

  /** The targets a record is pushed to, in push order. */
  function Dispatch(rules: seq<Rule>, path: seq<byte>, re: RegexEngine): seq<ClusterTarget> {
    Dedup(Selected(rules, path, re))
  }

  /** One push: to which target, of which record, and whether it succeeded. */
  datatype Delivery = Delivery(target: ClusterTarget, rec: RecBytes, ok: bool)

  /** The targets of a run of deliveries, in order. */
  function Targets(ds: seq<Delivery>): seq<ClusterTarget> {
    seq(|ds|, k requires 0 <= k < |ds| => ds[k].target)
  }

  /** The sending side of the cluster targets. Whether a push succeeds is
      up to the transport, so it is left open; every push is logged. */
  class Transport {
    ghost var log: seq<Delivery>

    constructor ()
      ensures log == []
    {
      log := [];
    }

    /** ClusterTarget.PushBytes. */
    method Push(t: ClusterTarget, r: RecBytes) returns (ok: bool)
      modifies this
      ensures log == old(log) + [Delivery(t, r, ok)]
    {
      ok :| true;
      log := log + [Delivery(t, r, ok)];
    }
  }

  /** RouteRecBytes: walk the rules in order; for a matched rule push the
      record to each of its targets not yet pushed to for this record,
      whatever the outcome of earlier pushes; stop after a matched rule
      whose `continues` is false. */
  method RouteRecBytes(rs: Rules, r: RecBytes, re: RegexEngine, tx: Transport)
    modifies tx
    ensures |tx.log| >= |old(tx.log)| && tx.log[..|old(tx.log)|] == old(tx.log)
    ensures Targets(tx.log[|old(tx.log)|..]) == Dispatch(rs.rules, r.path, re)
    ensures AllCarry(tx.log[|old(tx.log)|..], r)
  {
    var pushedTo: set<ClusterTarget> := {};
    ghost var flat: seq<ClusterTarget> := [];
    ghost var sent: seq<Delivery> := [];
    ghost var rest := Selected(rs.rules, r.path, re);

    var i := 0;
    while i < |rs.rules|
      invariant 0 <= i <= |rs.rules|
      invariant rest == Selected(rs.rules[i..], r.path, re)
      invariant Selected(rs.rules, r.path, re) == flat + rest
      invariant forall x :: x in pushedTo <==> x in flat
      invariant tx.log == old(tx.log) + sent
      invariant Targets(sent) == Dedup(flat)
      invariant AllCarry(sent, r)
    {
      var rl := rs.rules[i];
      ghost var tried;
      var matchedRule;
      matchedRule, tried := MatchBytes(rl, r, re);
      SelectedStep(rs.rules, r.path, re, i);
      if matchedRule {
        ghost var more;
        pushedTo, more := PushTargets(rl.targets, r, pushedTo, tx, flat);
        AllCarryAppend(sent, more, r);
        TargetsAppend(sent, more);
        AppendAssoc(old(tx.log), sent, more);
        AppendAssoc(flat, rl.targets, Selected(rs.rules[i + 1..], r.path, re));
        sent := sent + more;
        flat := flat + rl.targets;
      }
      assert tx.log == old(tx.log) + sent;
      assert Targets(sent) == Dedup(flat);

      if matchedRule && !rl.continues {
        assert rest == rl.targets + [];
        rest := [];
        assert flat == flat + rest;
        break;
      }
      rest := Selected(rs.rules[i + 1..], r.path, re);
      i := i + 1;
    }
    if i == |rs.rules| {
      assert rs.rules[i..] == [];
    }
    assert rest == [];
    assert flat + rest == flat;
    DispatchIsDedup(rs.rules, r.path, re, flat);
  }

  /** The push loop of RouteRecBytes for one matched rule: push to each
      target in order unless it is in `pushedTo`, the set of targets
      already pushed to (`flat` lists them with repeats). */
  method PushTargets(targets: seq<ClusterTarget>, r: RecBytes, pushedTo: set<ClusterTarget>, tx: Transport,
                     ghost flat: seq<ClusterTarget>)
    returns (pushed: set<ClusterTarget>, ghost sent: seq<Delivery>)
    requires forall x :: x in pushedTo <==> x in flat
    modifies tx
    ensures forall x :: x in pushed <==> x in flat + targets
    ensures tx.log == old(tx.log) + sent
    ensures Dedup(flat) + Targets(sent) == Dedup(flat + targets)
    ensures AllCarry(sent, r)
  {
    pushed := pushedTo;
    sent := [];
    ghost var seen := flat;
    for j := 0 to |targets|
      invariant seen == flat + targets[..j]
      invariant forall x :: x in pushed <==> x in seen
      invariant tx.log == old(tx.log) + sent
      invariant Dedup(flat) + Targets(sent) == Dedup(seen)
      invariant AllCarry(sent, r)
    {
      var cl := targets[j];
      assert targets[..j + 1] == targets[..j] + [cl];
      AppendAssoc(flat, targets[..j], [cl]);
      DedupSnoc(seen, cl);
      if cl !in pushed {
        var ok := tx.Push(cl, r);
        AppendAssoc(old(tx.log), sent, [Delivery(cl, r, ok)]);
        AllCarryAppend(sent, [Delivery(cl, r, ok)], r);
        TargetsSnoc(Dedup(flat), sent, Delivery(cl, r, ok));
        sent := sent + [Delivery(cl, r, ok)];
        pushed := pushed + {cl};
      }
      seen := seen + [cl];
    }
    assert targets[..|targets|] == targets;
  }

  /** Every delivery in `ds` is of record `r`. */
  ghost predicate AllCarry(ds: seq<Delivery>, r: RecBytes) {
    forall k :: 0 <= k < |ds| ==> ds[k].rec == r
  }

  lemma AllCarryAppend(a: seq<Delivery>, b: seq<Delivery>, r: RecBytes)
    requires AllCarry(a, r) && AllCarry(b, r)
    ensures AllCarry(a + b, r)
  {
  }

  lemma TargetsAppend(a: seq<Delivery>, b: seq<Delivery>)
    ensures Targets(a + b) == Targets(a) + Targets(b)
  {
  }

  lemma AppendAssoc<T>(a: seq<T>, b: seq<T>, c: seq<T>)
    ensures (a + b) + c == a + (b + c)
  {
  }

  lemma DispatchIsDedup(rules: seq<Rule>, path: seq<byte>, re: RegexEngine, flat: seq<ClusterTarget>)
    requires Selected(rules, path, re) == flat
    ensures Dedup(flat) == Dispatch(rules, path, re)
  {
  }

  /** One step of Selected along a suffix of the rules. */
  lemma SelectedStep(rules: seq<Rule>, path: seq<byte>, re: RegexEngine, i: nat)
    requires i < |rules|
    ensures Selected(rules[i..], path, re) ==
      if Matches(rules[i], path, re) then
        rules[i].targets + (if rules[i].continues then Selected(rules[i + 1..], path, re) else [])
      else Selected(rules[i + 1..], path, re)
  {
    assert rules[i..][1..] == rules[i + 1..];
  }

  lemma DedupSnoc<T>(xs: seq<T>, x: T)
    ensures Dedup(xs + [x]) == if x in xs then Dedup(xs) else Dedup(xs) + [x]
  {
    assert (xs + [x])[..|xs|] == xs;
  }

  lemma TargetsSnoc(pre: seq<ClusterTarget>, ds: seq<Delivery>, d: Delivery)
    ensures pre + Targets(ds + [d]) == (pre + Targets(ds)) + [d.target]
  {
  }

  // ---------------------------------------------------------------------
  // Properties of routing

  lemma {:induction false} DedupElements<T>(xs: seq<T>)
    ensures forall x :: x in Dedup(xs) <==> x in xs
  {
    if xs != [] {
      var init := xs[..|xs| - 1];
      DedupElements(init);
      assert xs == init + [xs[|xs| - 1]];
    }
  }

  lemma {:induction false} DedupDistinct<T>(xs: seq<T>)
    ensures forall i, j :: 0 <= i < j < |Dedup(xs)| ==> Dedup(xs)[i] != Dedup(xs)[j]
  {
    if xs != [] {
      var init := xs[..|xs| - 1];
      DedupDistinct(init);
      DedupElements(init);
    }
  }

  /** De-duplicating a longer list only adds at the end: whatever is pushed
      for earlier targets is pushed first and in the same order. */
  lemma {:induction false} DedupPrefix<T>(a: seq<T>, b: seq<T>)
    ensures |Dedup(a)| <= |Dedup(a + b)| && Dedup(a + b)[..|Dedup(a)|] == Dedup(a)
  {
    if b == [] {
      assert a + b == a;
    } else {
      var b' := b[..|b| - 1];
      DedupPrefix(a, b');
      assert a + b == (a + b') + [b[|b| - 1]];
      DedupSnoc(a + b', b[|b| - 1]);
    }
  }

  /** Rule `i` is looked at: no earlier rule matched with `continues` false. */
  predicate Reached(rules: seq<Rule>, path: seq<byte>, re: RegexEngine, i: nat) {
    forall k :: 0 <= k < i && k < |rules| ==> !Matches(rules[k], path, re) || rules[k].continues
  }

  /** Within one routing call every target is pushed to at most once, even
      when several matched rules list it. */
  lemma PushedAtMostOnce(rules: seq<Rule>, path: seq<byte>, re: RegexEngine)
    ensures var d := Dispatch(rules, path, re);
      forall i, j :: 0 <= i < j < |d| ==> d[i] != d[j]
  {
    DedupDistinct(Selected(rules, path, re));
  }

  lemma {:induction false} SelectedMembers(rules: seq<Rule>, path: seq<byte>, re: RegexEngine, t: ClusterTarget)
    ensures t in Selected(rules, path, re) <==>
      exists i :: 0 <= i < |rules| && Reached(rules, path, re, i) && Matches(rules[i], path, re) && t in rules[i].targets
  {
    if rules != [] {
      var rest := rules[1..];
      SelectedMembers(rest, path, re, t);
      if exists i :: 0 <= i < |rules| && Reached(rules, path, re, i) && Matches(rules[i], path, re) && t in rules[i].targets {
        var i :| 0 <= i < |rules| && Reached(rules, path, re, i) && Matches(rules[i], path, re) && t in rules[i].targets;
        if i > 0 {
          assert Reached(rest, path, re, i - 1) by {
            forall k | 0 <= k < i - 1 && k < |rest|
              ensures !Matches(rest[k], path, re) || rest[k].continues
            {
              assert rest[k] == rules[k + 1];
            }
          }
          assert rest[i - 1] == rules[i];
          assert !Matches(rules[0], path, re) || rules[0].continues;
        }
      }
      if t in Selected(rules, path, re) {
        if !(Matches(rules[0], path, re) && t in rules[0].targets) {
          var i :| 0 <= i < |rest| && Reached(rest, path, re, i) && Matches(rest[i], path, re) && t in rest[i].targets;
          assert Reached(rules, path, re, i + 1) by {
            forall k | 0 <= k < i + 1 && k < |rules|
              ensures !Matches(rules[k], path, re) || rules[k].continues
            {
              if k > 0 {
                assert rules[k] == rest[k - 1];
              }
            }
          }
        }
      }
    }
  }

  /** A record is pushed to target `t` exactly when some rule it reaches
      matches it and lists `t`. */
  lemma DispatchMembers(rules: seq<Rule>, path: seq<byte>, re: RegexEngine, t: ClusterTarget)
    ensures t in Dispatch(rules, path, re) <==>
      exists i :: 0 <= i < |rules| && Reached(rules, path, re, i) && Matches(rules[i], path, re) && t in rules[i].targets
  {
    DedupElements(Selected(rules, path, re));
    SelectedMembers(rules, path, re, t);
  }

  /** A record that matches no rule is pushed nowhere. */
  lemma {:induction false} NoMatchNoPush(rules: seq<Rule>, path: seq<byte>, re: RegexEngine)
    requires forall i :: 0 <= i < |rules| ==> !Matches(rules[i], path, re)
    ensures Dispatch(rules, path, re) == []
  {
    if rules != [] {
      NoMatchNoPush(rules[1..], path, re);
    }
  }

  /** Once a reached rule matches with `continues` false, the rules after
      it make no difference. */
  lemma {:induction false} StopAfterFinalMatch(rules: seq<Rule>, path: seq<byte>, re: RegexEngine, i: nat)
    requires i < |rules| && Reached(rules, path, re, i)
    requires Matches(rules[i], path, re) && !rules[i].continues
    ensures Selected(rules, path, re) == Selected(rules[..i + 1], path, re)
    ensures Dispatch(rules, path, re) == Dispatch(rules[..i + 1], path, re)
  {
    if i > 0 {
      assert rules[1..][..i] == rules[..i + 1][1..];
      assert Reached(rules[1..], path, re, i - 1) by {
        forall k | 0 <= k < i - 1
          ensures !Matches(rules[1..][k], path, re) || rules[1..][k].continues
        {
          assert rules[1..][k] == rules[k + 1];
        }
      }
      StopAfterFinalMatch(rules[1..], path, re, i - 1);
      assert rules[..i + 1][0] == rules[0];
    }
  }

  /** A rule that does not match pushes nothing: leaving it out changes
      nothing. */
  lemma {:induction false} NonMatchingRuleInert(rules: seq<Rule>, path: seq<byte>, re: RegexEngine, i: nat)
    requires i < |rules| && !Matches(rules[i], path, re)
    ensures Selected(rules, path, re) == Selected(rules[..i] + rules[i + 1..], path, re)
  {
    if i > 0 {
      NonMatchingRuleInert(rules[1..], path, re, i - 1);
      DropInnerSlices(rules, i);
      SelectedSameHead(rules, rules[..i] + rules[i + 1..], path, re);
    } else {
      assert rules[..0] + rules[1..] == rules[1..];
    }
  }

  /** Rule lists with the same first rule whose tails select the same
      targets select the same targets. */
  lemma SelectedSameHead(a: seq<Rule>, b: seq<Rule>, path: seq<byte>, re: RegexEngine)
    requires a != [] && b != [] && a[0] == b[0]
    requires Selected(a[1..], path, re) == Selected(b[1..], path, re)
    ensures Selected(a, path, re) == Selected(b, path, re)
  {
  }

  /** Leaving out entry `i > 0` keeps the first entry, and leaves out
      entry `i - 1` of the tail. */
  lemma DropInnerSlices<T>(xs: seq<T>, i: nat)
    requires 0 < i < |xs|
    ensures var without := xs[..i] + xs[i + 1..];
      without[0] == xs[0] && without[1..] == xs[1..][..i - 1] + xs[1..][i..]
  {
    var without := xs[..i] + xs[i + 1..];
    assert xs[1..][..i - 1] == xs[1..i] && xs[1..][i..] == xs[i + 1..];
    assert without[1..] == xs[1..i] + xs[i + 1..];
  }
}
