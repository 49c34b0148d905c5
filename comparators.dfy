/** Comparators: the `VersionComparator` table, the operator symbols of a requirement clause,
    and what each comparison evaluates to. */
module Comparators {
  import opened Options
  import opened PyStr
  import opened Versions
  import opened Builder

  /** The members of `VersionComparator`, each named after its regex group. */
  datatype Comparator =
    | Compatible    // "comp",    ~=
    | Match         // "match",   ==
    | Exclude       // "exclude", !=
    | LessEqual     // "lte",     <=
    | GreaterEqual  // "gte",     >=
    | Less          // "lt",      <
    | Greater       // "gt",      >
    | Exact         // "eq",      ===

  /** The name of the regex group that selects the comparator. */
  function GroupName(op: Comparator): string
  {
    match op
    case Compatible => "comp"
    case Match => "match"
    case Exclude => "exclude"
    case LessEqual => "lte"
    case GreaterEqual => "gte"
    case Less => "lt"
    case Greater => "gt"
    case Exact => "eq"
  }

  /** `VersionComparator.get`: the comparator of a group name, `None` for any other name. */
  function Get(name: string): Option<Comparator>
  {
    if name == "match" then Some(Match)
    else if name == "exclude" then Some(Exclude)
    else if name == "lt" then Some(Less)
    else if name == "gt" then Some(Greater)
    else if name == "lte" then Some(LessEqual)
    else if name == "gte" then Some(GreaterEqual)
    else if name == "comp" then Some(Compatible)
    else if name == "eq" then Some(Exact)
    else None
  }

  /** The lookup table and the group names are inverse: every comparator is found under its
      own name and under no other. */
  lemma GetGroupName(op: Comparator, name: string)
    ensures Get(GroupName(op)) == Some(op)
    ensures Get(name) == Some(op) <==> name == GroupName(op)
  {
  }

  /** The text of the operator in a requirement clause. */
  function Symbol(op: Comparator): string
  {
    match op
    case Compatible => "~="
    case Match => "=="
    case Exclude => "!="
    case LessEqual => "<="
    case GreaterEqual => ">="
    case Less => "<"
    case Greater => ">"
    case Exact => "==="
  }

  /** `COMPATIBLE`: `x >= y and x < increment(strip(y))`. The `and` does not evaluate its
      right side when `x < y`; a failed strip or increment raises, which is `None` here. */
  function CompatibleWith(x: Version, y: Version): Option<bool>
  {
    if !Ge(x, y) then Some(false)
    else match CompatibleUpper(y)
      case None => None
      case Some(upper) => Some(Lt(x, upper))
  }

  /** `increment(strip(y))`, `None` when either step raises. */
  function CompatibleUpper(y: Version): Option<Version>
  {
    match StripLeastSignificant(y)
    case None => None
    case Some(s) => IncrementLeastSignificant(s)
  }

  /** The lambda of a comparator applied to the version `x` and a clause's target `y`. The
      target is `None` when its string was not a valid version; every comparator then raises
      (`None.tokens`), which is `None` here. */
  function Compare(op: Comparator, x: Version, y: Option<Version>): Option<bool>
  {
    if y.None? then None
    else
      var v := y.value;
      match op
      case Compatible => CompatibleWith(x, v)
      case Match => Some(Eq(x, v))
      case Exclude => Some(!Eq(x, v))
      case LessEqual => Some(Le(x, v))
      case GreaterEqual => Some(Ge(x, v))
      case Less => Some(Lt(x, v))
      case Greater => Some(Gt(x, v))
      case Exact => Some(x.raw == v.raw)
  }

  /** The exclusive upper bound of `~= y`: the stripped version of `y`, incremented. */
  function UpperBound(t: Tokens): Option<Tokens>
    requires WellFormed(t)
  {
    StrippedWellFormed(t);
    Incremented(Stripped(t))
  }

  /** `x ~= y` for a well-formed `y`: false below `y`; otherwise an error exactly when `y` has
      both a post and a dev release (stripping leaves the post release, which cannot be
      incremented), and else whether `x` lies below the upper bound. */
  lemma CompatibleSpec(x: Version, y: Version)
    requires WellFormed(y.tokens)
    ensures !Ge(x, y) ==> CompatibleWith(x, y) == Some(false)
    ensures Ge(x, y) ==>
              (CompatibleWith(x, y).None? <==> y.tokens.post.Some? && y.tokens.dev.Some?)
    ensures Ge(x, y) && UpperBound(y.tokens).Some? ==>
              var u := UpperBound(y.tokens).value;
              WellFormed(u) && CompatibleWith(x, y) == Some(Lt(x, Version(Render(u), u)))
  {
    if Ge(x, y) {
      var t := y.tokens;
      StripSpec(y);
      StrippedWellFormed(t);
      var s := Version(Render(Stripped(t)), Stripped(t));
      IncrementSpec(s);
    }
  }

  /** On a version that ends in its release, the upper bound of `~=` keeps the epoch, drops
      the last release component and increments the one before it (a release of one
      component is incremented itself). */
  lemma UpperBoundOfRelease(t: Tokens)
    requires WellFormed(t) && t.prerelease.None? && t.post.None? && t.dev.None?
    ensures IsRelease(RSplitHead(t.release, '.'))
    ensures UpperBound(t) == Some(t.(release := BumpRelease(RSplitHead(t.release, '.'))))
  {
    RSplitHeadRelease(t.release);
  }

  /** Every comparator but `~=` evaluates without error on a present target. */
  lemma CompareDefined(op: Comparator, x: Version, y: Option<Version>)
    ensures Compare(op, x, y).None? ==> y.None? || op == Compatible
  {
  }

  /** `!=` is the negation of `==`, and `>=` of `<`; `<=` and `>` are disjoint, and each
      of the two is `<` or `>` widened by `==`. */
  lemma ComplementaryComparators(x: Version, y: Version)
    ensures Compare(Exclude, x, Some(y)) == Some(!Compare(Match, x, Some(y)).value)
    ensures Compare(GreaterEqual, x, Some(y)) == Some(!Compare(Less, x, Some(y)).value)
    ensures !(Compare(LessEqual, x, Some(y)).value && Compare(Greater, x, Some(y)).value)
    ensures Compare(LessEqual, x, Some(y)).value <==>
              Compare(Less, x, Some(y)).value || Compare(Match, x, Some(y)).value
    ensures Compare(GreaterEqual, x, Some(y)).value <==>
              Compare(Greater, x, Some(y)).value || Compare(Match, x, Some(y)).value
  {
  }

  /** When `x ~= y` holds, so does `x >= y`. */
  lemma CompatibleImpliesGe(x: Version, y: Version)
    requires CompatibleWith(x, y) == Some(true)
    ensures Ge(x, y)
  {
  }
}
