/** What each `add_*` call of the builder means, and the state a run of calls
    leaves behind. */
module Rules {
  import opened Wrappers
  import opened Text
  import opened BookFormat
  import opened Addresses

  /** Address and CIDR parsing is a library's: a parameter. */
  type ParseIp = Bytes -> Option<IpRange>

  const FULL_PREFIX: Bytes := [102, 117, 108, 108, 58]
  const KEYWORD_PREFIX: Bytes := [107, 101, 121, 119, 111, 114, 100, 58]
  const DOMAIN_PREFIX: Bytes := [100, 111, 109, 97, 105, 110, 58]
  const WILDCARD_PREFIX: Bytes := [42, 46]

  /** One call on the builder. */
  datatype Add =
    | AddCategory(path: Bytes)
    | AddRule(category: Bytes, rule: Bytes)
    | AddSuffix(category: Bytes, host: Bytes)
    | AddExact(category: Bytes, host: Bytes)
    | AddKeyword(category: Bytes, fragment: Bytes)

  /** `Nothing` is a call that registers its category and adds no entry. */
  datatype Rule = Nothing | Ip(range: IpRange) | Suffix(name: Bytes) | Exact(name: Bytes) | Keyword(name: Bytes)

  datatype Effect = Rejected | Registered(cat: Bytes, rule: Rule)

  /** The normalised path, unless it is empty or has a bad segment. */
  function CategoryOf(path: Bytes): Option<Bytes> {
    var norm := NormalizeCategory(path);
    if norm == [] || !ValidPath(norm) then None else Some(norm)
  }

  function SuffixRule(host: Bytes): Rule {
    var name := NormalizeDomain(host);
    var name := if WILDCARD_PREFIX <= name then name[2..] else name;
    if name == [] then Nothing else Suffix(name)
  }

  function ExactRule(host: Bytes): Rule {
    var name := NormalizeDomain(host);
    if name == [] then Nothing else Exact(name)
  }

  function KeywordRule(fragment: Bytes): Rule {
    var name := NormalizeDomain(fragment);
    if name == [] then Nothing else Keyword(name)
  }

  /** The rule a line of rule syntax stands for. */
  function RuleOf(rule: Bytes, parse: ParseIp): Rule {
    LineRule(Trim(rule), parse)
  }

  function LineRule(r: Bytes, parse: ParseIp): Rule {
    if r == [] then Nothing
    else if FULL_PREFIX <= r then ExactRule(r[|FULL_PREFIX|..])
    else if KEYWORD_PREFIX <= r then KeywordRule(r[|KEYWORD_PREFIX|..])
    else if DOMAIN_PREFIX <= r then SuffixRule(r[|DOMAIN_PREFIX|..])
    else UntypedRule(r, parse)
  }

  /** Without a known type: an address or network, else a suffix, the unknown type aside. */
  function UntypedRule(r: Bytes, parse: ParseIp): Rule {
    if parse(r).Some? then Ip(parse(r).value)
    else
      var i := IndexOf(r, COLON);
      SuffixRule(if i == |r| then r else r[i + 1..])
  }

  function Register(category: Bytes, rule: Rule): Effect {
    match CategoryOf(category)
    case None => Rejected
    case Some(cat) => Registered(cat, rule)
  }

  function EffectOf(add: Add, parse: ParseIp): Effect {
    match add
    case AddCategory(path) => Register(path, Nothing)
    case AddRule(category, rule) => Register(category, RuleOf(rule, parse))
    case AddSuffix(category, host) => Register(category, SuffixRule(host))
    case AddExact(category, host) => Register(category, ExactRule(host))
    case AddKeyword(category, fragment) => Register(category, KeywordRule(fragment))
  }

  /** Does the call return `Ok`? */
  predicate Succeeds(add: Add, parse: ParseIp) {
    var e := EffectOf(add, parse);
    e.Registered? && (add.AddCategory? || e.rule != Nothing)
  }

  // ----- builder state

  datatype CatRange = CatRange(lo: nat, hi: nat, cat: Bytes)

  type Tagged = map<Bytes, set<Bytes>>

  datatype State = State(
    epoch: nat,
    categories: set<Bytes>,
    ip4: seq<CatRange>,
    ip6: seq<CatRange>,
    exact: Tagged,
    suffix: Tagged,
    keywords: Tagged)

  function Empty(epoch: nat): State {
    State(epoch, {}, [], [], map[], map[], map[])
  }

  /** The path and all its ancestor paths. */
  function Ancestors(path: Bytes): set<Bytes> {
    set i | 0 <= i <= |path| && (i == |path| || path[i] == SLASH) :: path[..i]
  }

  /** `entry(key).or_default().insert(cat)` */
  function Tag(m: Tagged, key: Bytes, cat: Bytes): Tagged {
    m[key := (if key in m then m[key] else {}) + {cat}]
  }

  function PiecesOf(pieces: seq<IpRange>, v4: bool, cat: Bytes): seq<CatRange> {
    if pieces == [] then []
    else (if pieces[0].v4 == v4 then [CatRange(pieces[0].lo, pieces[0].hi, cat)] else [])
         + PiecesOf(pieces[1..], v4, cat)
  }

  function Put(st: State, e: Effect): State {
    if e.Rejected? then st
    else
      var st := st.(categories := st.categories + Ancestors(e.cat));
      match e.rule
      case Nothing => st
      case Ip(range) =>
        var pieces := Canonicalize(range);
        st.(ip4 := st.ip4 + PiecesOf(pieces, true, e.cat), ip6 := st.ip6 + PiecesOf(pieces, false, e.cat))
      case Suffix(name) => st.(suffix := Tag(st.suffix, ReverseLabels(name), e.cat))
      case Exact(name) => st.(exact := Tag(st.exact, name, e.cat))
      case Keyword(name) => st.(keywords := Tag(st.keywords, name, e.cat))
  }

  /** The state after a run of calls. */
  function Run(adds: seq<Add>, epoch: nat, parse: ParseIp): State {
    if adds == [] then Empty(epoch)
    else Put(Run(adds[..|adds| - 1], epoch, parse), EffectOf(adds[|adds| - 1], parse))
  }

  ghost function Effects(adds: seq<Add>, parse: ParseIp): set<Effect> {
    set a | a in adds :: EffectOf(a, parse)
  }

  // ----- what a state holds, as a set of effects

  ghost predicate YieldsRange(e: Effect, x: CatRange, v4: bool) {
    && e.Registered? && e.rule.Ip? && e.cat == x.cat
    && exists p :: p in Canonicalize(e.rule.range) && p.v4 == v4 && p.lo == x.lo && p.hi == x.hi
  }

  ghost predicate HoldsRanges(rs: seq<CatRange>, es: set<Effect>, v4: bool) {
    forall x :: x in rs <==> exists e :: e in es && YieldsRange(e, x, v4)
  }

  /** The three string tables. */
  datatype Kind = ExactTable | SuffixTable | KeywordTable

  function Table(st: State, kind: Kind): Tagged {
    match kind
    case ExactTable => st.exact
    case SuffixTable => st.suffix
    case KeywordTable => st.keywords
  }

  /** The rule that an entry with this key stands for. */
  function RuleFor(kind: Kind, key: Bytes): Rule {
    match kind
    case ExactTable => Exact(key)
    case SuffixTable => Suffix(ReverseLabels(key))
    case KeywordTable => Keyword(key)
  }

  predicate TaggedWith(m: Tagged, key: Bytes, cat: Bytes) {
    key in m && cat in m[key]
  }

  ghost predicate HoldsTags(m: Tagged, es: set<Effect>, kind: Kind) {
    && (forall key, cat :: TaggedWith(m, key, cat) <==> Registered(cat, RuleFor(kind, key)) in es)
    && (forall key :: key in m ==> m[key] != {})
  }

  ghost predicate HoldsCategories(cats: set<Bytes>, es: set<Effect>) {
    forall c :: c in cats <==> exists e :: e in es && e.Registered? && c in Ancestors(e.cat)
  }

  ghost predicate Represents(st: State, es: set<Effect>) {
    && HoldsCategories(st.categories, es)
    && HoldsRanges(st.ip4, es, true) && HoldsRanges(st.ip6, es, false)
    && forall kind :: HoldsTags(Table(st, kind), es, kind)
  }

  lemma {:induction false} PiecesOfElements(pieces: seq<IpRange>, v4: bool, cat: Bytes, x: CatRange)
    ensures x in PiecesOf(pieces, v4, cat) <==>
            x.cat == cat && exists p :: p in pieces && p.v4 == v4 && p.lo == x.lo && p.hi == x.hi
  {
    if pieces != [] {
      PiecesOfElements(pieces[1..], v4, cat, x);
      assert forall p :: p in pieces <==> p == pieces[0] || p in pieces[1..];
    }
  }

  function RangesAdded(e: Effect, v4: bool): seq<CatRange> {
    if e.Registered? && e.rule.Ip? then PiecesOf(Canonicalize(e.rule.range), v4, e.cat) else []
  }

  lemma PutRanges(rs: seq<CatRange>, es: set<Effect>, e: Effect, v4: bool)
    requires HoldsRanges(rs, es, v4)
    ensures HoldsRanges(rs + RangesAdded(e, v4), es + {e}, v4)
  {
    forall x
      ensures x in rs + RangesAdded(e, v4) <==> exists f :: f in es + {e} && YieldsRange(f, x, v4)
    {
      assert x in RangesAdded(e, v4) <==> YieldsRange(e, x, v4) by {
        if e.Registered? && e.rule.Ip? { PiecesOfElements(Canonicalize(e.rule.range), v4, e.cat, x); }
      }
      assert e in es + {e} && forall f :: f in es ==> f in es + {e};
    }
  }

  /** The table a rule belongs to, and its key there. */
  predicate Belongs(rule: Rule, kind: Kind) {
    match kind
    case ExactTable => rule.Exact?
    case SuffixTable => rule.Suffix?
    case KeywordTable => rule.Keyword?
  }

  function KeyOf(rule: Rule): Bytes
    requires rule.Exact? || rule.Suffix? || rule.Keyword?
  {
    if rule.Suffix? then ReverseLabels(rule.name) else rule.name
  }

  lemma PutTable(st: State, e: Effect, kind: Kind)
    ensures Table(Put(st, e), kind) ==
            if e.Registered? && Belongs(e.rule, kind) then Tag(Table(st, kind), KeyOf(e.rule), e.cat)
            else Table(st, kind)
  {
  }

  lemma RuleOfKey(rule: Rule, kind: Kind, key: Bytes)
    ensures rule == RuleFor(kind, key) <==> Belongs(rule, kind) && KeyOf(rule) == key
  {
    ReverseLabelsInvolution(key);
    if rule.Suffix? { ReverseLabelsInvolution(rule.name); }
  }

  lemma PutTags(st: State, es: set<Effect>, e: Effect, kind: Kind)
    requires HoldsTags(Table(st, kind), es, kind)
    ensures HoldsTags(Table(Put(st, e), kind), es + {e}, kind)
  {
    PutTable(st, e, kind);
    var m, m' := Table(st, kind), Table(Put(st, e), kind);
    forall key, cat ensures TaggedWith(m', key, cat) <==> Registered(cat, RuleFor(kind, key)) in es + {e} {
      assert TaggedWith(m, key, cat) <==> Registered(cat, RuleFor(kind, key)) in es;
      if e.Registered? { RuleOfKey(e.rule, kind, key); }
    }
  }

  lemma PutCategories(cats: set<Bytes>, es: set<Effect>, e: Effect)
    requires HoldsCategories(cats, es)
    ensures HoldsCategories(if e.Rejected? then cats else cats + Ancestors(e.cat), es + {e})
  {
    assert e in es + {e} && forall f :: f in es ==> f in es + {e};
  }

  lemma PutFields(st: State, e: Effect)
    ensures Put(st, e).categories == if e.Rejected? then st.categories else st.categories + Ancestors(e.cat)
    ensures Put(st, e).ip4 == st.ip4 + RangesAdded(e, true) && Put(st, e).ip6 == st.ip6 + RangesAdded(e, false)
  {
  }

  lemma PutRepresents(st: State, es: set<Effect>, e: Effect)
    requires Represents(st, es)
    ensures Represents(Put(st, e), es + {e})
  {
    PutFields(st, e);
    PutCategories(st.categories, es, e);
    PutRanges(st.ip4, es, e, true);
    PutRanges(st.ip6, es, e, false);
    forall kind ensures HoldsTags(Table(Put(st, e), kind), es + {e}, kind) { PutTags(st, es, e, kind); }
  }

  lemma EmptyRepresents(epoch: nat)
    ensures Represents(Empty(epoch), {})
  {
  }

  lemma EffectsSnoc(adds: seq<Add>, parse: ParseIp)
    requires adds != []
    ensures Effects(adds, parse) ==
            Effects(adds[..|adds| - 1], parse) + {EffectOf(adds[|adds| - 1], parse)}
  {
    assert adds == adds[..|adds| - 1] + [adds[|adds| - 1]];
  }

  /** A run holds exactly the effects of its calls. */
  lemma {:induction false} RunRepresents(adds: seq<Add>, epoch: nat, parse: ParseIp)
    ensures Represents(Run(adds, epoch, parse), Effects(adds, parse))
    ensures Run(adds, epoch, parse).epoch == epoch
  {
    if adds == [] {
      EmptyRepresents(epoch);
      assert Effects(adds, parse) == {};
    } else {
      var prior := adds[..|adds| - 1];
      RunRepresents(prior, epoch, parse);
      EffectsSnoc(adds, parse);
      PutRepresents(Run(prior, epoch, parse), Effects(prior, parse), EffectOf(adds[|adds| - 1], parse));
    }
  }

  /** Equal up to the order and repetition of the range lists. */
  ghost predicate SameContents(s: State, t: State) {
    && s.epoch == t.epoch && s.categories == t.categories
    && (forall x :: x in s.ip4 <==> x in t.ip4) && (forall x :: x in s.ip6 <==> x in t.ip6)
    && s.exact == t.exact && s.suffix == t.suffix && s.keywords == t.keywords
  }

  lemma TaggedExtensional(m: Tagged, n: Tagged, es: set<Effect>, kind: Kind)
    requires HoldsTags(m, es, kind) && HoldsTags(n, es, kind)
    ensures m == n
  {
    forall k, c ensures TaggedWith(m, k, c) <==> TaggedWith(n, k, c) {}
    forall k ensures k in m <==> k in n {
      if k in m { var c :| c in m[k]; assert TaggedWith(m, k, c); }
      if k in n { var c :| c in n[k]; assert TaggedWith(n, k, c); }
    }
    forall k | k in m ensures m[k] == n[k] {
      forall c ensures c in m[k] <==> c in n[k] { assert TaggedWith(m, k, c) <==> TaggedWith(n, k, c); }
    }
  }

  /** The effects determine the contents. */
  lemma EffectsDetermineContents(s: State, t: State, es: set<Effect>)
    requires Represents(s, es) && Represents(t, es) && s.epoch == t.epoch
    ensures SameContents(s, t)
  {
    assert s.categories == t.categories by {
      forall c ensures c in s.categories <==> c in t.categories {}
    }
    forall kind ensures Table(s, kind) == Table(t, kind) {
      assert HoldsTags(Table(s, kind), es, kind) && HoldsTags(Table(t, kind), es, kind);
      TaggedExtensional(Table(s, kind), Table(t, kind), es, kind);
    }
    assert Table(s, ExactTable) == Table(t, ExactTable) && Table(s, SuffixTable) == Table(t, SuffixTable)
        && Table(s, KeywordTable) == Table(t, KeywordTable);
  }
}
