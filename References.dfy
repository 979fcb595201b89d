/** The callback for internal references `\ref{label}`, with the word in
    front of it ("Fig.", "chapter", "eq.", "theorem", ...), an optional
    plural `s`, the separator and optional parentheses. Figures, tables,
    chapters, sections and appendices become `{numref}` roles, equations
    `{eq}` roles and theorem-like objects `{prf:ref}` roles. The regular
    expression that finds the references is not modelled (it matches the
    words case-insensitively, while the callback compares them exactly). */
module References {
  import opened Strings

  /** The groups of a reference match that the callback reads: the word
      (group 1), the `fig` (2), `table` (3), `ch` (4), `sec` (7), `app` (9),
      `eq` (11) and `prop` (13) parts of it, the plural `s` (15), the
      separator (16), an opening parenthesis (17), the label (18) and a
      closing parenthesis (19). */
  datatype RefMatch = RefMatch(
    word: Option<string>, fig: Option<string>, table: Option<string>, ch: Option<string>,
    sec: Option<string>, app: Option<string>, eq: Option<string>, prop: Option<string>,
    plural: Option<string>, sep: string, open: Option<string>, labelName: string, close: Option<string>)

  /** The MyST roles the references become. */
  datatype Role = EqRole | NumRef | PrfRef

  function RoleName(role: Role): string {
    match role
    case EqRole => "{eq}"
    case NumRef => "{numref}"
    case PrfRef => "{prf:ref}"
  }

  /** A role applied to a label. */
  function Reference(role: Role, l: string): string {
    RoleName(role) + "`" + l + "`"
  }

  /** The closing parenthesis is put back only when the match took one
      without taking an opening one. */
  function Paren(m: RefMatch): string {
    if m.open.None? && m.close == Some(")") then ")" else ""
  }

  /** The role of a bare `\ref` from the text of its label before the first
      colon: none or `eq` an equation; `fig`, `table`, `tab`, `ch`, `sec` and
      `app` numbered; `thm`, `prop`, `lemma`, `cor`, `axiom` and `def`
      theorem-like; anything else an equation. */
  function FallbackRole(l: string): Role {
    var parts := SplitOn(l, ":");
    if |parts| == 1 || parts[0] == "eq" then EqRole
    else if parts[0] == "fig" then NumRef
    else if parts[0] == "table" || parts[0] == "tab" then NumRef
    else if parts[0] == "ch" || parts[0] == "sec" || parts[0] == "app" then NumRef
    else if parts[0] in ["thm", "prop", "lemma", "cor", "axiom", "def"] then PrfRef
    else EqRole
  }

  predicate FigureOrTable(m: RefMatch) {
    m.fig == Some("fig") || m.fig == Some("Fig") || m.table == Some("Table") || m.table == Some("table")
  }

  predicate Division(m: RefMatch) {
    m.ch == Some("ch") || m.ch == Some("Ch") || m.sec == Some("sec") || m.sec == Some("Sec")
    || m.app == Some("app") || m.app == Some("App")
  }

  predicate Equation(m: RefMatch) {
    m.eq == Some("eq") || m.eq == Some("Eq")
  }

  predicate TheoremLike(m: RefMatch) {
    m.word in [Some("theorem"), Some("Theorem"), Some("lemma"), Some("Lemma"), Some("corollary"),
               Some("Corollary"), Some("axiom"), Some("Axiom"), Some("def"), Some("Def")]
    || m.prop == Some("prop") || m.prop == Some("Prop")
  }

  /** `RefReplace`. The `eq` part of the word is only captured inside the
      word, so an equation reference has a word. */
  function RefReplace(m: RefMatch): string
    requires m.eq.Some? ==> m.word.Some?
  {
    var body :=
      if FigureOrTable(m) then "{numref}`" + m.labelName + "`"
      else if Division(m) then "{numref}`" + m.labelName + "`"
      else if Equation(m) then
        m.word.value + (if m.plural == Some("s") then "s" else "") + m.sep + "{eq}`" + m.labelName + "`"
      else if TheoremLike(m) then "{prf:ref}`" + m.labelName + "`"
      else
        (if m.plural.Some? then "s" else "") + m.sep
        + (match FallbackRole(m.labelName)
           case EqRole => "{eq}`" + m.labelName + "`"
           case NumRef => "{numref}`" + m.labelName + "`"
           case PrfRef => "{prf:ref}`" + m.labelName + "`");
    body + Paren(m)
  }

  // ---------------------------------------------------------------------------
  // What a reference becomes

  /** The role a reference gets, category by category. */
  function RoleOf(m: RefMatch): Role {
    if FigureOrTable(m) || Division(m) then NumRef
    else if Equation(m) then EqRole
    else if TheoremLike(m) then PrfRef
    else FallbackRole(m.labelName)
  }

  /** What stays in front of the role: nothing where the role prints the
      word itself; the word, its plural `s` and the separator for an
      equation; an `s` and the separator for a bare `\ref`. */
  function Lead(m: RefMatch): string
    requires m.eq.Some? ==> m.word.Some?
  {
    if FigureOrTable(m) || Division(m) then ""
    else if Equation(m) then m.word.value + (if m.plural == Some("s") then "s" else "") + m.sep
    else if TheoremLike(m) then ""
    else (if m.plural.Some? then "s" else "") + m.sep
  }

  /** Every reference is its lead, the role applied to the captured label,
      and the closing parenthesis when the match swallowed one without its
      opening partner. */
  lemma RefShape(m: RefMatch)
    requires m.eq.Some? ==> m.word.Some?
    ensures RefReplace(m) == Lead(m) + Reference(RoleOf(m), m.labelName) + Paren(m)
  {
    if FigureOrTable(m) || Division(m) {
      ShapeNumbered(m);
    } else if Equation(m) {
      ShapeEquation(m);
    } else if TheoremLike(m) {
      ShapeTheorem(m);
    } else {
      ShapeFallback(m);
    }
  }

  lemma ShapeNumbered(m: RefMatch)
    requires m.eq.Some? ==> m.word.Some?
    requires FigureOrTable(m) || Division(m)
    ensures RefReplace(m) == Lead(m) + Reference(RoleOf(m), m.labelName) + Paren(m)
  {
    assert "{numref}`" + m.labelName + "`" == Reference(NumRef, m.labelName);
  }

  lemma ShapeEquation(m: RefMatch)
    requires !(FigureOrTable(m) || Division(m)) && Equation(m) && m.word.Some?
    ensures RefReplace(m) == Lead(m) + Reference(RoleOf(m), m.labelName) + Paren(m)
  {
    assert "{eq}`" + m.labelName + "`" == Reference(EqRole, m.labelName);
  }

  lemma ShapeTheorem(m: RefMatch)
    requires m.eq.Some? ==> m.word.Some?
    requires !(FigureOrTable(m) || Division(m) || Equation(m)) && TheoremLike(m)
    ensures RefReplace(m) == Lead(m) + Reference(RoleOf(m), m.labelName) + Paren(m)
  {
    assert "{prf:ref}`" + m.labelName + "`" == Reference(PrfRef, m.labelName);
  }

  lemma ShapeFallback(m: RefMatch)
    requires m.eq.Some? ==> m.word.Some?
    requires !(FigureOrTable(m) || Division(m) || Equation(m) || TheoremLike(m))
    ensures RefReplace(m) == Lead(m) + Reference(RoleOf(m), m.labelName) + Paren(m)
  {
    FallbackReference(m.labelName);
  }

  lemma FallbackReference(l: string)
    ensures (match FallbackRole(l)
             case EqRole => "{eq}`" + l + "`"
             case NumRef => "{numref}`" + l + "`"
             case PrfRef => "{prf:ref}`" + l + "`") == Reference(FallbackRole(l), l)
  {
  }

  /** The output ends in a parenthesis exactly when the match took a closing
      one without the opening one: the role itself ends in a backtick. */
  lemma RefParenthesis(m: RefMatch)
    requires m.eq.Some? ==> m.word.Some?
    ensures var r := RefReplace(m); |r| > 0 && (r[|r| - 1] == ')' <==> m.open.None? && m.close == Some(")"))
  {
    RefShape(m);
  }

  /** A bare `\ref` whose label has no colon is an equation reference. */
  lemma FallbackWithoutColon(l: string)
    requires ':' !in l
    ensures FallbackRole(l) == EqRole
  {
    forall k | 0 <= k < |l| ensures !OccursAt(l, ":", k) {
      assert l[k] in l;
    }
  }

  /** The role of the text before the first colon of a label. */
  function PrefixRole(p: string): Role {
    if p in ["fig", "table", "tab", "ch", "sec", "app"] then NumRef
    else if p in ["thm", "prop", "lemma", "cor", "axiom", "def"] then PrfRef
    else EqRole
  }

  /** A bare `\ref` is classified by the text before the first colon of its
      label, compared exactly. */
  lemma FallbackByPrefix(p: string, rest: string)
    requires ':' !in p
    ensures FallbackRole(p + ":" + rest) == PrefixRole(p)
  {
    var l := p + ":" + rest;
    assert OccursAt(l, ":", |p|) by { assert l[|p|..|p| + 1] == ":"; }
    forall j | 0 <= j < |p| ensures !OccursAt(l, ":", j) {
      assert l[j] == p[j] && p[j] in p;
    }
    IndexOfFirst(l, ":", 0, |p|);
    assert l[..|p|] == p;
    var parts := SplitOn(l, ":");
    assert parts[0] == p;
    assert |parts| >= 2;
  }

  /** Figures, tables, chapters, sections and appendices cited with their
      word become a bare `{numref}` role, which prints the word itself. */
  lemma NumberedRef(m: RefMatch)
    requires m.eq.Some? ==> m.word.Some?
    requires FigureOrTable(m) || Division(m)
    ensures RefReplace(m) == Reference(NumRef, m.labelName) + Paren(m)
  {
    RefShape(m);
    assert "" + Reference(NumRef, m.labelName) == Reference(NumRef, m.labelName);
  }

  /** An equation cited with its word keeps the word, its plural `s` and the
      separator in front of the `{eq}` role. */
  lemma EquationRef(m: RefMatch)
    requires Equation(m) && !FigureOrTable(m) && !Division(m) && m.word.Some?
    ensures RefReplace(m) == m.word.value + (if m.plural == Some("s") then "s" else "") + m.sep
      + Reference(EqRole, m.labelName) + Paren(m)
  {
    RefShape(m);
  }
}
