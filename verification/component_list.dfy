/**
 * Creation, copying and freeing of python components: the split of a
 * "module.class" import string, new_component_from_module_name,
 * copy_components and free_components.
 */
module ComponentList {
  import opened Common
  import opened Component
  import opened ComponentMerge

  predicate NoDots(s: string) {
    forall i | 0 <= i < |s| :: s[i] != '.'
  }

  /** Only delimiters (or nothing): strtok finds no token. */
  predicate AllDots(s: string) {
    forall i | 0 <= i < |s| :: s[i] == '.'
  }

  /** The input with its leading delimiters skipped, as strtok does first. */
  function SkipDots(s: string): (r: string)
    ensures |r| <= |s| && r == s[|s| - |r|..]
    ensures |r| > 0 ==> r[0] != '.'
    ensures forall i | 0 <= i < |s| - |r| :: s[i] == '.'
    decreases |s|
  {
    if |s| > 0 && s[0] == '.' then SkipDots(s[1..]) else s
  }

  /** Length of the longest delimiter-free prefix. */
  function RunLength(s: string): (n: nat)
    ensures n <= |s|
    ensures forall j | 0 <= j < n :: s[j] != '.'
    ensures n < |s| ==> s[n] == '.'
    decreases |s|
  {
    if |s| == 0 || s[0] == '.' then 0 else 1 + RunLength(s[1..])
  }

  /**
   * One strtok(…, ".") call: None when only delimiters are left, else the
   * token and the text after the delimiter that ended it.
   */
  function NextToken(s: string): (r: Option<(string, string)>)
    ensures r.Some? ==> |r.value.0| > 0 && NoDots(r.value.0)
  {
    TokenAt(SkipDots(s))
  }

  /** The token at the start of text whose leading delimiters are already skipped. */
  function TokenAt(t: string): (r: Option<(string, string)>)
    requires t == [] || t[0] != '.'
    ensures r.Some? ==> |r.value.0| > 0 && NoDots(r.value.0)
  {
    if t == "" then None
    else
      var n := RunLength(t);
      Some((t[..n], if n < |t| then t[n + 1..] else ""))
  }

  /** strtok finds no token exactly when the string is only delimiters. */
  lemma NoTokenExactlyWhenAllDots(s: string)
    ensures NextToken(s).None? <==> AllDots(s)
  {
  }

  /**
   * tok is found after the first k characters of s, all of them dots; it
   * ends at the end of s or at a dot, and rest is what follows that dot.
   */
  predicate TokenFoundAt(s: string, k: nat, tok: string, rest: string) {
    && k + |tok| <= |s|
    && AllDots(s[..k])
    && s[k..k + |tok|] == tok
    && (k + |tok| == |s| || s[k + |tok|] == '.')
    && rest == (if k + |tok| == |s| then "" else s[k + |tok| + 1..])
  }

  /**
   * strtok's token is the first maximal dot-free run: the leading dots are
   * skipped, the token follows and ends at the end of the string or at a
   * dot, and the rest starts just after that dot.
   */
  lemma NextTokenIsFirstRun(s: string)
    ensures NextToken(s).Some? ==>
              exists k: nat :: TokenFoundAt(s, k, NextToken(s).value.0, NextToken(s).value.1)
  {
    if NextToken(s).Some? {
      var k := TokenBounds(s);
    }
  }

  /** The skip length at which strtok's token is found. */
  lemma TokenBounds(s: string) returns (k: nat)
    requires NextToken(s).Some?
    ensures TokenFoundAt(s, k, NextToken(s).value.0, NextToken(s).value.1)
  {
    var t := SkipDots(s);
    k := |s| - |t|;
    var n := RunLength(t);
    assert t != "";
    assert NextToken(s) == Some((t[..n], if n < |t| then t[n + 1..] else ""));
    RunInPlace(s, k, t, n);
  }

  /** A dot-free run of t, where t follows k leading dots of s, is found at k. */
  lemma RunInPlace(s: string, k: nat, t: string, n: nat)
    requires k <= |s| && t == s[k..] && n <= |t|
    requires forall i | 0 <= i < k :: s[i] == '.'
    requires n < |t| ==> t[n] == '.'
    ensures TokenFoundAt(s, k, t[..n], if n < |t| then t[n + 1..] else "")
  {
    assert t[..n] == s[k..k + n];
    assert AllDots(s[..k]);
    if n < |t| {
      assert t[n] == s[k + n];
      assert t[n + 1..] == s[k + n + 1..];
    }
  }

  datatype ImportName = ImportName(moduleName: string, className: string)

  /**
   * The module is the first token and the class the second, or empty when
   * there is no second token; None when there is no token at all.
   */
  function SplitImport(s: string): Option<ImportName> {
    match NextToken(s)
    case None => None
    case Some((m, rest)) =>
      match NextToken(rest)
      case None => Some(ImportName(m, ""))
      case Some((c, _)) => Some(ImportName(m, c))
  }

  lemma RunLengthOfDotted(m: string, tail: string)
    requires NoDots(m)
    requires tail == [] || tail[0] == '.'
    ensures RunLength(m + tail) == |m|
    decreases |m|
  {
    if |m| > 0 {
      assert (m + tail)[0] == m[0] != '.';
      assert (m + tail)[1..] == m[1..] + tail;
      RunLengthOfDotted(m[1..], tail);
    } else {
      assert m + tail == tail;
    }
  }

  /** A token followed by nothing or by a delimiter is found whole. */
  lemma NextTokenOfDotted(m: string, tail: string)
    requires |m| > 0 && NoDots(m)
    requires tail == [] || tail[0] == '.'
    ensures NextToken(m + tail) == Some((m, if tail == [] then [] else tail[1..]))
  {
    var s := m + tail;
    assert SkipDots(s) == s by { assert s[0] == m[0]; }
    assert RunLength(s) == |m| by { RunLengthOfDotted(m, tail); }
    assert s[..|m|] == m;
    if tail != [] {
      assert s[|m| + 1..] == tail[1..];
    }
  }

  lemma SplitFromTokens(s: string, m: string, rest: string, c: string)
    requires NextToken(s) == Some((m, rest))
    requires NextToken(rest).Some? && NextToken(rest).value.0 == c
    ensures SplitImport(s) == Some(ImportName(m, c))
  {
  }

  /** Leading delimiters before a token are skipped whatever their number. */
  lemma {:induction false} SkipLeadingDots(d: string, x: string)
    requires AllDots(d) && (x == [] || x[0] != '.')
    ensures SkipDots(d + x) == x
    decreases |d|
  {
    if |d| > 0 {
      assert (d + x)[1..] == d[1..] + x;
      SkipLeadingDots(d[1..], x);
    } else {
      assert d + x == x;
    }
  }

  /** A token after any run of delimiters, followed by nothing or a delimiter, is found whole. */
  lemma NextTokenAfterDots(d: string, m: string, tail: string)
    requires AllDots(d) && |m| > 0 && NoDots(m)
    requires tail == [] || tail[0] == '.'
    ensures NextToken(d + m + tail) == Some((m, if tail == [] then [] else tail[1..]))
  {
    var x := m + tail;
    assert x[0] == m[0];
    assert d + m + tail == d + x;
    assert SkipDots(d + x) == x by { SkipLeadingDots(d, x); }
    assert NextToken(d + x) == TokenAt(x);
    NextTokenOfDotted(m, tail);
  }

  /**
   * Leading and repeated dots are skipped: "..m..c" and "m.c.more" both
   * split into module m and class c; later tokens are ignored.
   */
  lemma SplitModuleAndClass(d1: string, m: string, d2: string, c: string, more: string)
    requires AllDots(d1) && |d2| > 0 && AllDots(d2)
    requires |m| > 0 && NoDots(m) && |c| > 0 && NoDots(c)
    requires more == [] || more[0] == '.'
    ensures SplitImport(d1 + m + d2 + c + more) == Some(ImportName(m, c))
  {
    var tail := d2 + c + more;
    var rest := d2[1..] + c + more;
    assert d1 + m + d2 + c + more == d1 + m + tail;
    assert NextToken(d1 + m + tail) == Some((m, rest)) by {
      assert tail[0] == d2[0] && tail[1..] == rest;
      NextTokenAfterDots(d1, m, tail);
    }
    assert NextToken(rest).Some? && NextToken(rest).value.0 == c by {
      assert AllDots(d2[1..]);
      NextTokenAfterDots(d2[1..], c, more);
    }
    SplitFromTokens(d1 + m + tail, m, rest, c);
  }

  /** A single token between runs of dots gives that module and an empty class name. */
  lemma SplitModuleOnly(d1: string, m: string, d2: string)
    requires AllDots(d1) && AllDots(d2) && |m| > 0 && NoDots(m)
    ensures SplitImport(d1 + m + d2) == Some(ImportName(m, ""))
  {
    NextTokenAfterDots(d1, m, d2);
    var rest := if d2 == [] then [] else d2[1..];
    assert AllDots(rest);
    NoTokenExactlyWhenAllDots(rest);
  }

  datatype ImportError = NoComponentSpecified | LoadFailed

  /**
   * The Python side of load_component: whether a module imports, and the
   * `args` of the first class of that name that passes verify_class (None
   * inside when it has no `args`); None when no such class is found.
   */
  datatype PythonEnv = PythonEnv(
    imports: string -> bool,
    findClass: (string, string) -> Option<Option<seq<(PyKey, PyValue)>>>)

  /**
   * load_component: fails when the module does not import, when only a
   * module was named, or when no valid class of that name exists; otherwise
   * the class's properties are merged into the component. Returns the
   * component, the properties it let go and the next free address.
   */
  function LoadComponent(pc: PythonComponent, env: PythonEnv, next: nat)
    : (r: Option<(PythonComponent, seq<ComponentProperty>, nat)>)
    ensures !env.imports(pc.moduleName) ==> r.None?
    ensures |pc.moduleName| > 0 && pc.className == "" ==> r.None?
    ensures r.Some? <==>
              && env.imports(pc.moduleName)
              && !(|pc.moduleName| > 0 && pc.className == "")
              && env.findClass(pc.moduleName, pc.className).Some?
    ensures r.Some? ==>
              && r.value.0.addr == pc.addr
              && r.value.0.moduleName == pc.moduleName
              && r.value.0.className == pc.className
              && r.value.2 >= next
  {
    if !env.imports(pc.moduleName) then None
    else if |pc.moduleName| > 0 && |pc.className| == 0 then None
    else match env.findClass(pc.moduleName, pc.className)
      case None => None
      case Some(args) =>
        var r := CreateProperties(pc, args, next);
        Some(r)
  }

  /**
   * new_component_from_module_name as written: the empty string is
   * refused, but an import made only of dots passes that test and strtok
   * hands NULL to strcpy, modelled as `NullModuleCopied`.
   */
  datatype AsWrittenOutcome =
    | Refused
    | NullModuleCopied
    | Created(comp: PythonComponent)
    | NotCreated

  function NewComponentAsWritten(s: string, next: nat, env: PythonEnv): AsWrittenOutcome {
    if s == "" then Refused
    else match SplitImport(s)
      case None => NullModuleCopied
      case Some(n) =>
        match LoadComponent(PythonComponent(next, n.moduleName, n.className, []), env, next + 1)
        case None => NotCreated
        case Some(r) => Created(r.0)
  }

  /** The import "." passes the empty-string test yet has no module token. */
  lemma DotImportCopiesNull(next: nat, env: PythonEnv)
    ensures "." != ""
    ensures NewComponentAsWritten(".", next, env) == NullModuleCopied
  {
    assert SkipDots(".") == SkipDots(""[..]);
  }

  /**
   * new_component_from_module_name with a missing module name reported like
   * an empty import. The result is the component (or the error) and the next
   * free address; nothing is allocated when the import is refused, and a
   * component that fails to load is allocated and freed.
   */
  function NewComponentFromModuleName(s: string, next: nat, env: PythonEnv)
    : (r: (Result<PythonComponent, ImportError>, nat))
    ensures SplitImport(s).None? <==> r == (Err(NoComponentSpecified), next)
    ensures r.0.Ok? ==>
              && SplitImport(s).Some?
              && r.0.value.moduleName == SplitImport(s).value.moduleName
              && r.0.value.className == SplitImport(s).value.className
              && r.0.value.className != ""
              && r.0.value.addr == next && r.1 > next
  {
    match SplitImport(s)
    case None => (Err(NoComponentSpecified), next)
    case Some(n) =>
      match LoadComponent(PythonComponent(next, n.moduleName, n.className, []), env, next + 1)
      case None => (Err(LoadFailed), next + 1)
      case Some(r) => (Ok(r.0), r.2)
  }

  /** An import is refused before anything is allocated exactly when it is empty or made only of dots. */
  lemma RefusedExactlyWhenAllDots(s: string, next: nat, env: PythonEnv)
    ensures AllDots(s) <==> NewComponentFromModuleName(s, next, env) == (Err(NoComponentSpecified), next)
  {
    NoTokenExactlyWhenAllDots(s);
  }

  /** Naming only a module, with no dot, never creates a component. */
  lemma ModuleOnlyImportFails(m: string, next: nat, env: PythonEnv)
    requires |m| > 0 && NoDots(m)
    ensures NewComponentFromModuleName(m, next, env).0 == Err(LoadFailed)
  {
    assert "" + m + "" == m;
    SplitModuleOnly("", m, "");
  }

  /** Wherever the source does not copy a NULL module name, the two agree. */
  lemma CorrectedAgreesAsWritten(s: string, next: nat, env: PythonEnv)
    requires s == "" || !AllDots(s)
    ensures NewComponentAsWritten(s, next, env).Refused? ==> NewComponentFromModuleName(s, next, env).0 == Err(NoComponentSpecified)
    ensures NewComponentAsWritten(s, next, env).NotCreated? ==> NewComponentFromModuleName(s, next, env).0 == Err(LoadFailed)
    ensures NewComponentAsWritten(s, next, env).Created? ==>
              NewComponentFromModuleName(s, next, env).0 == Ok(NewComponentAsWritten(s, next, env).comp)
  {
    NoTokenExactlyWhenAllDots(s);
    if s == "" {
      assert SplitImport(s).None?;
    } else {
      var n := SplitImport(s).value;
      var pc := PythonComponent(next, n.moduleName, n.className, []);
      assert NewComponentAsWritten(s, next, env) ==
             match LoadComponent(pc, env, next + 1)
             case None => NotCreated
             case Some(r) => Created(r.0);
    }
  }

  /**
   * reload_component: load_component again on an existing component; on
   * failure the component is left as it was.
   */
  function ReloadComponent(pc: PythonComponent, env: PythonEnv, next: nat)
    : (r: (PythonComponent, seq<ComponentProperty>, nat))
    ensures LoadComponent(pc, env, next).None? ==> r == (pc, [], next)
    ensures r.0.addr == pc.addr && r.0.moduleName == pc.moduleName && r.0.className == pc.className
    ensures r.2 >= next
  {
    match LoadComponent(pc, env, next)
    case None => (pc, [], next)
    case Some(r) => r
  }

  /** The same property at a new address (copy_property). */
  function CopyProperties(ps: seq<ComponentProperty>, next: nat): (r: seq<ComponentProperty>)
    ensures |r| == |ps|
    ensures forall j | 0 <= j < |ps| :: r[j] == ps[j].(addr := next + j)
  {
    seq(|ps|, j requires 0 <= j < |ps| => ps[j].(addr := next + j))
  }

  /** The addresses of a component list in allocation order: each component, then its properties. */
  function Addrs(cs: seq<PythonComponent>): seq<nat>
    decreases |cs|
  {
    if |cs| == 0 then []
    else [cs[0].addr] + PropAddrs(cs[0].properties) + Addrs(cs[1..])
  }

  function PropAddrs(ps: seq<ComponentProperty>): (r: seq<nat>)
    ensures |r| == |ps|
  {
    seq(|ps|, j requires 0 <= j < |ps| => ps[j].addr)
  }

  /** Number of nodes (components and properties) in a list. */
  function NodeCount(cs: seq<PythonComponent>): nat
    decreases |cs|
  {
    if |cs| == 0 then 0 else 1 + |cs[0].properties| + NodeCount(cs[1..])
  }

  /**
   * copy_components: component by component, the component is duplicated
   * and then its properties, each at the next fresh address. Returns the
   * copy and the next free address.
   */
  function CopyComponents(cs: seq<PythonComponent>, next: nat): (r: (seq<PythonComponent>, nat))
    ensures |r.0| == |cs|
    ensures r.1 == next + NodeCount(cs)
    ensures forall i | 0 <= i < |cs| ::
              && r.0[i].moduleName == cs[i].moduleName && r.0[i].className == cs[i].className
              && |r.0[i].properties| == |cs[i].properties|
              && forall j | 0 <= j < |cs[i].properties| ::
                   r.0[i].properties[j] == cs[i].properties[j].(addr := r.0[i].properties[j].addr)
    decreases |cs|
  {
    if |cs| == 0 then ([], next)
    else
      var c := cs[0];
      var head := c.(addr := next, properties := CopyProperties(c.properties, next + 1));
      var rest := CopyComponents(cs[1..], next + 1 + |c.properties|);
      assert forall i | 1 <= i < |cs| :: cs[1..][i - 1] == cs[i];
      ([head] + rest.0, rest.1)
  }

  /**
   * The copy's nodes sit at consecutive fresh addresses next, next+1, ...,
   * so they are pairwise distinct and share nothing with a list whose
   * addresses are all below next.
   */
  lemma {:induction false} CopyAddressesFresh(cs: seq<PythonComponent>, next: nat)
    ensures |Addrs(CopyComponents(cs, next).0)| == NodeCount(cs)
    ensures forall k | 0 <= k < NodeCount(cs) :: Addrs(CopyComponents(cs, next).0)[k] == next + k
    decreases |cs|
  {
    if |cs| > 0 {
      var c := cs[0];
      var n := next + 1 + |c.properties|;
      CopyAddressesFresh(cs[1..], n);
      var r := CopyComponents(cs, next).0;
      assert r[1..] == CopyComponents(cs[1..], n).0;
      var pa := PropAddrs(r[0].properties);
      assert forall j | 0 <= j < |pa| :: pa[j] == next + 1 + j;
    }
  }

  /** No node of the copy is a node of an original whose addresses are all below next. */
  lemma CopySharesNothing(cs: seq<PythonComponent>, next: nat)
    requires forall a | a in Addrs(cs) :: a < next
    ensures forall a | a in Addrs(CopyComponents(cs, next).0) :: a !in Addrs(cs)
  {
    CopyAddressesFresh(cs, next);
  }

  /** free_components: each component's properties are freed, then the component. */
  function FreeComponents(cs: seq<PythonComponent>): seq<nat>
    decreases |cs|
  {
    if |cs| == 0 then []
    else PropAddrs(cs[0].properties) + [cs[0].addr] + FreeComponents(cs[1..])
  }

  /** Every node of the list is freed exactly once. */
  lemma {:induction false} FreeComponentsFreesAll(cs: seq<PythonComponent>)
    ensures multiset(FreeComponents(cs)) == multiset(Addrs(cs))
    decreases |cs|
  {
    if |cs| > 0 {
      FreeComponentsFreesAll(cs[1..]);
      var pa := PropAddrs(cs[0].properties);
      var rest := FreeComponents(cs[1..]);
      assert multiset(pa + [cs[0].addr] + rest) == multiset(pa) + multiset{cs[0].addr} + multiset(rest);
      assert multiset([cs[0].addr] + pa + Addrs(cs[1..])) == multiset{cs[0].addr} + multiset(pa) + multiset(Addrs(cs[1..]));
    }
  }
}
