/** The positional shaping table of percato/characterutil.py (the same code
    is repeated in One/main.py and GenerDat/characterutil.py): a letter's four
    optional presentation forms and its neighbours decide which glyph is used.

    Every form is modelled as a single character (`Option<char>`); `None`
    is an absent form, a JSON `null` in the table. A form that is the empty
    string is not modelled. The table itself (`letters.json`) is an input
    map. */
module Shaping {
  import opened Wrappers

  /** One row of the letter table. */
  datatype Letter = Letter(
    character: char,
    initial: Option<char>,
    medial: Option<char>,
    final: Option<char>,
    isolated: Option<char>)

  /** `PersianLetterSide`: the flag set over {BACK, FRONT}. BACK joins the
      logically previous letter, FRONT the logically next one. */
  datatype Side = Side(back: bool, front: bool)

  const NONE := Side(false, false)
  const BACK := Side(true, false)
  const FRONT := Side(false, true)
  const BOTH := Side(true, true)

  /** `PersianLetterForm`, with its integer values 0..3. */
  datatype Form = Isolated | Initial | Final | Medial

  function FormValue(f: Form): int
  {
    match f
    case Isolated => 0
    case Initial => 1
    case Final => 2
    case Medial => 3
  }

  function FormOf(l: Letter, f: Form): Option<char>
  {
    match f
    case Isolated => l.isolated
    case Initial => l.initial
    case Final => l.final
    case Medial => l.medial
  }

  /** The letter table, keyed by the letter's own character. */
  type Table = map<char, Letter>

  datatype ShapeError =
    | UnknownLetter(c: char, text: string)   // freeze_letters under throw_unknown
    | MissingForm(index: nat)                // "".join meets a None form
    | NotACharacter(s: string)               // get_form_of_letter's assert
    | FormNotFound(s: string)                // get_form_of_letter under throw_unknown

  /** `PersianLetter.get_connected_form`. */
  function ConnectedForm(l: Letter, side: Side): (r: Option<char>)
    ensures r == l.isolated || r == l.initial || r == l.final || r == l.medial
  {
    if side == BOTH && l.medial.Some? then l.medial
    else if side.back then l.final
    else if side.front && l.initial.Some? then l.initial
    else l.isolated
  }

  /** `PersianLetter.can_connect`. */
  predicate CanConnect(l: Letter, side: Side)
  {
    !(side.back && l.final.None?) && !(side.front && l.initial.None?)
  }

  /** The side flags combine: a letter can connect on both sides exactly
      when it can on each, and it can always stand alone. */
  lemma CanConnectBySide(l: Letter)
    ensures CanConnect(l, BOTH) <==> CanConnect(l, BACK) && CanConnect(l, FRONT)
    ensures CanConnect(l, BACK) <==> l.final.Some?
    ensures CanConnect(l, FRONT) <==> l.initial.Some?
    ensures CanConnect(l, NONE)
  {
  }

  /** The four-way priority of the connected form, stated per side flag:
      a BOTH flag yields the medial form, or the final form when there is
      no medial form; a lone BACK yields the final form; a lone FRONT yields
      the initial form when there is one; everything else is isolated. */
  lemma ConnectedFormPriority(l: Letter, side: Side)
    ensures side.back && side.front ==>
      ConnectedForm(l, side) == (if l.medial.Some? then l.medial else l.final)
    ensures side.back && !side.front ==> ConnectedForm(l, side) == l.final
    ensures !side.back && side.front ==>
      ConnectedForm(l, side) == (if l.initial.Some? then l.initial else l.isolated)
    ensures !side.back && !side.front ==> ConnectedForm(l, side) == l.isolated
  {
  }

  /** A side the letter can connect on never leads to an absent glyph, as
      long as the isolated form is present. */
  lemma ConnectablePresent(l: Letter, side: Side)
    requires CanConnect(l, side) && l.isolated.Some?
    ensures ConnectedForm(l, side).Some?
    ensures side.back ==> ConnectedForm(l, side) in {l.final, l.medial}
  {
  }

  /** The join flag `get_letter_form` computes for position `i`. */
  function JoinFlag(t: Table, s: string, i: nat): (side: Side)
    requires i < |s| && s[i] in t
    ensures side.front <==>
      i + 1 < |s| && s[i + 1] in t && t[s[i]].initial.Some? && t[s[i + 1]].final.Some?
    ensures side.back <==>
      0 < i && s[i - 1] in t && t[s[i]].final.Some? && t[s[i - 1]].initial.Some?
  {
    var front := i < |s| - 1 && s[i + 1] in t && CanConnect(t[s[i]], FRONT) && CanConnect(t[s[i + 1]], BACK);
    var back := i > 0 && s[i - 1] in t && CanConnect(t[s[i]], BACK) && CanConnect(t[s[i - 1]], FRONT);
    Side(back, front)
  }

  /** `CharacterManager.get_letter_form`: the positional glyph of the known
      letter at `i` (the source's only caller checks the letter is known). */
  function GetLetterForm(t: Table, s: string, i: nat): (r: Option<char>)
    requires i < |s| && s[i] in t
    ensures r == t[s[i]].isolated || r == t[s[i]].initial || r == t[s[i]].final || r == t[s[i]].medial
    ensures t[s[i]].isolated.Some? ==> r.Some?
    ensures (0 == i || s[i - 1] !in t) && (i + 1 == |s| || s[i + 1] !in t) ==> r == t[s[i]].isolated
  {
    if t[s[i]].isolated.Some? then
      ConnectablePresent(t[s[i]], JoinFlag(t, s, i));
      ConnectedForm(t[s[i]], JoinFlag(t, s, i))
    else
      ConnectedForm(t[s[i]], JoinFlag(t, s, i))
  }

  /** A known letter with an isolated form always gets a glyph: BACK is only
      set when a final form exists and FRONT only when an initial one does. */
  lemma LetterFormPresent(t: Table, s: string, i: nat)
    requires i < |s| && s[i] in t && t[s[i]].isolated.Some?
    ensures GetLetterForm(t, s, i).Some?
    ensures JoinFlag(t, s, i).back ==> t[s[i]].final.Some?
    ensures JoinFlag(t, s, i).front ==> t[s[i]].initial.Some?
  {
    ConnectablePresent(t[s[i]], JoinFlag(t, s, i));
  }

  /** A letter with a final form that follows a letter which can join
      forward is shaped as final, or medial when it also joins forward:
      never isolated or initial. */
  lemma JoinedAfterPredecessor(t: Table, s: string, i: nat)
    requires 0 < i < |s| && s[i] in t && s[i - 1] in t
    requires t[s[i - 1]].initial.Some? && t[s[i]].final.Some?
    ensures JoinFlag(t, s, i).back
    ensures GetLetterForm(t, s, i) == t[s[i]].final
         || (JoinFlag(t, s, i).front && GetLetterForm(t, s, i) == t[s[i]].medial)
  {
  }

  /** The glyph `freeze_letters` collects for position `i`, before joining. */
  function ShapeAt(t: Table, s: string, i: nat): Option<char>
    requires i < |s|
  {
    if s[i] in t then GetLetterForm(t, s, i) else Some(s[i])
  }

  /** Index of the first character of `s[k..]` that is not in the table. */
  function FirstUnknown(t: Table, s: string, k: nat): (r: Option<nat>)
    requires k <= |s|
    ensures r.Some? ==> k <= r.value < |s| && s[r.value] !in t
                        && forall j :: k <= j < r.value ==> s[j] in t
    ensures r.None? ==> forall j :: k <= j < |s| ==> s[j] in t
    decreases |s| - k
  {
    if k == |s| then None
    else if s[k] !in t then Some(k)
    else FirstUnknown(t, s, k + 1)
  }

  /** `"".join` over the collected glyphs: a `None` glyph makes the join fail
      at its index. */
  function JoinGlyphs(g: seq<Option<char>>): (r: Result<string, ShapeError>)
    ensures r.Success? <==> forall i :: 0 <= i < |g| ==> g[i].Some?
    ensures r.Success? ==> |r.value| == |g| && forall i :: 0 <= i < |g| ==> r.value[i] == g[i].value
    ensures r.Failure? ==> r.error.MissingForm? && r.error.index < |g|
                           && g[r.error.index].None?
                           && forall j :: 0 <= j < r.error.index ==> g[j].Some?
  {
    if |g| == 0 then Success([])
    else match JoinGlyphs(g[..|g| - 1])
      case Failure(e) => Failure(e)
      case Success(p) =>
        if g[|g| - 1].None? then Failure(MissingForm(|g| - 1)) else Success(p + [g[|g| - 1].value])
  }

  /** `CharacterManager.freeze_letters` (`fix_letters` in the GenerDat copy).
      The unknown-letter exception is raised inside the loop, so it wins over
      the join failure that only happens after the loop. */
  function FreezeLetters(t: Table, s: string, throwUnknown: bool): (r: Result<string, ShapeError>)
    ensures r.Success? ==> |r.value| == |s|
    ensures r.Success? ==> forall i :: 0 <= i < |s| ==>
      (s[i] in t ==> Some(r.value[i]) == GetLetterForm(t, s, i)) && (s[i] !in t ==> r.value[i] == s[i])
    ensures r.Success? <==>
      (!throwUnknown || forall i :: 0 <= i < |s| ==> s[i] in t)
      && forall i :: 0 <= i < |s| && s[i] in t ==> GetLetterForm(t, s, i).Some?
    ensures r.Failure? && r.error.UnknownLetter? ==>
      throwUnknown && r.error.text == s && r.error.c !in t
      && exists i :: 0 <= i < |s| && s[i] == r.error.c && forall j :: 0 <= j < i ==> s[j] in t
  {
    var glyphs := seq(|s|, i requires 0 <= i < |s| => ShapeAt(t, s, i));
    var unknown := FirstUnknown(t, s, 0);
    if throwUnknown && unknown.Some? then Failure(UnknownLetter(s[unknown.value], s))
    else
      var r := JoinGlyphs(glyphs);
      assert r.Success? <==> forall i :: 0 <= i < |s| && s[i] in t ==> GetLetterForm(t, s, i).Some? by {
        forall i | 0 <= i < |s|
          ensures glyphs[i].Some? <==> (s[i] in t ==> GetLetterForm(t, s, i).Some?)
        {
          assert glyphs[i] == ShapeAt(t, s, i);
        }
      }
      r
  }

  /** With every letter of the table carrying an isolated form, shaping only
      fails on unknown letters, and only under `throw_unknown`. */
  lemma FreezeFailsOnlyOnUnknown(t: Table, s: string, throwUnknown: bool)
    requires forall c :: c in t ==> t[c].isolated.Some?
    ensures FreezeLetters(t, s, throwUnknown).Failure? <==>
      throwUnknown && exists i :: 0 <= i < |s| && s[i] !in t
  {
    forall i | 0 <= i < |s| && s[i] in t
      ensures GetLetterForm(t, s, i).Some?
    {
      LetterFormPresent(t, s, i);
    }
  }

  /** `get_persian_letters()`: the table's keys. */
  function PersianLetters(t: Table): set<char>
  {
    t.Keys
  }

  /** Words filtered to `get_persian_letters()` (as the generation drivers
      do) never raise the unknown-letter error. */
  lemma FilteredWordsAreKnown(t: Table, s: string, throwUnknown: bool)
    requires forall i :: 0 <= i < |s| ==> s[i] in PersianLetters(t)
    ensures !(FreezeLetters(t, s, throwUnknown).Failure? && FreezeLetters(t, s, throwUnknown).error.UnknownLetter?)
  {
  }

  /** The present forms of one letter, `None` removed. */
  function LetterGlyphs(l: Letter): (r: set<char>)
    ensures forall g :: g in r <==> exists f :: FormOf(l, f) == Some(g)
  {
    var r := (if l.initial.Some? then {l.initial.value} else {})
      + (if l.medial.Some? then {l.medial.value} else {})
      + (if l.final.Some? then {l.final.value} else {})
      + (if l.isolated.Some? then {l.isolated.value} else {});
    assert forall g :: g in r ==> exists f :: FormOf(l, f) == Some(g) by {
      forall g | g in r
        ensures exists f :: FormOf(l, f) == Some(g)
      {
        if l.initial == Some(g) { assert FormOf(l, Initial) == Some(g); }
        else if l.medial == Some(g) { assert FormOf(l, Medial) == Some(g); }
        else if l.final == Some(g) { assert FormOf(l, Final) == Some(g); }
        else { assert FormOf(l, Isolated) == Some(g); }
      }
    }
    r
  }

  /** `get_persian_letter_forms()`: every present form of every letter. */
  function PersianLetterForms(t: Table): (r: set<char>)
    ensures forall g :: g in r <==> exists c :: c in t && g in LetterGlyphs(t[c])
  {
    set c, g | c in t && g in LetterGlyphs(t[c]) :: g
  }

  /** The set of present glyphs of one form, over the whole table. */
  function FormSet(t: Table, f: Form): (r: set<char>)
    ensures forall g :: g in r <==> exists c :: c in t && FormOf(t[c], f) == Some(g)
  {
    var r := set c | c in t && FormOf(t[c], f).Some? :: FormOf(t[c], f).value;
    assert forall g :: (exists c :: c in t && FormOf(t[c], f) == Some(g)) ==> g in r by {
      forall g | exists c :: c in t && FormOf(t[c], f) == Some(g)
        ensures g in r
      {
        var c :| c in t && FormOf(t[c], f) == Some(g);
        assert FormOf(t[c], f).value == g;
      }
    }
    r
  }

  /** `get_form_letter_map()`: for each form, the set of its present glyphs. */
  function FormLetterMap(t: Table): (m: map<Form, set<char>>)
    ensures m.Keys == {Isolated, Initial, Final, Medial}
    ensures forall f :: f in m ==> m[f] == FormSet(t, f)
  {
    map[Isolated := FormSet(t, Isolated), Initial := FormSet(t, Initial),
        Final := FormSet(t, Final), Medial := FormSet(t, Medial)]
  }

  lemma GlyphInSomeFormSet(t: Table, g: char)
    requires g in PersianLetterForms(t)
    ensures g in FormSet(t, Isolated) || g in FormSet(t, Initial) || g in FormSet(t, Final) || g in FormSet(t, Medial)
  {
    var c :| c in t && g in LetterGlyphs(t[c]);
    var f :| FormOf(t[c], f) == Some(g);
    assert g in FormSet(t, f);
  }

  lemma FormSetGlyphIsForm(t: Table, g: char, f: Form)
    requires g in FormSet(t, f)
    ensures g in PersianLetterForms(t)
  {
    var c :| c in t && FormOf(t[c], f) == Some(g);
    assert g in LetterGlyphs(t[c]);
  }

  function FormMapUnion(t: Table): set<char>
  {
    FormSet(t, Isolated) + FormSet(t, Initial) + FormSet(t, Final) + FormSet(t, Medial)
  }

  lemma FormsWithinUnion(t: Table)
    ensures PersianLetterForms(t) <= FormMapUnion(t)
  {
    forall g | g in PersianLetterForms(t)
      ensures g in FormMapUnion(t)
    {
      GlyphInSomeFormSet(t, g);
    }
  }

  lemma UnionWithinForms(t: Table)
    ensures FormMapUnion(t) <= PersianLetterForms(t)
  {
    forall g | g in FormMapUnion(t)
      ensures g in PersianLetterForms(t)
    {
      if g in FormSet(t, Isolated) { FormSetGlyphIsForm(t, g, Isolated); }
      else if g in FormSet(t, Initial) { FormSetGlyphIsForm(t, g, Initial); }
      else if g in FormSet(t, Final) { FormSetGlyphIsForm(t, g, Final); }
      else { FormSetGlyphIsForm(t, g, Medial); }
    }
  }

  /** The glyph set of `get_persian_letter_forms` is the union of the four
      sets of `get_form_letter_map`. */
  lemma FormsAreUnionOfFormMap(t: Table)
    ensures var m := FormLetterMap(t);
      PersianLetterForms(t) == m[Isolated] + m[Initial] + m[Final] + m[Medial]
  {
    FormsWithinUnion(t);
    UnionWithinForms(t);
  }

  lemma NotInAnyFormSet(t: Table, g: char)
    requires g !in FormSet(t, Isolated) && g !in FormSet(t, Initial)
    requires g !in FormSet(t, Final) && g !in FormSet(t, Medial)
    ensures forall f :: g !in FormSet(t, f)
  {
    forall f
      ensures g !in FormSet(t, f)
    {
      match f
      case Isolated =>
      case Initial =>
      case Final =>
      case Medial =>
    }
  }

  /** `get_form_of_letter`: the value of the first form, in ISOLATED,
      INITIAL, FINAL, MEDIAL order, whose glyph set holds the character,
      or -1. */
  function GetFormOfLetter(t: Table, c: string, throwUnknown: bool): (r: Result<int, ShapeError>)
    ensures |c| != 1 <==> r == Failure(NotACharacter(c))
    ensures r.Success? ==> -1 <= r.value <= 3
    ensures |c| == 1 && r.Success? ==> (r.value == -1 <==> forall f :: c[0] !in FormSet(t, f))
    ensures |c| == 1 ==> (r == Failure(FormNotFound(c)) <==> throwUnknown && forall f :: c[0] !in FormSet(t, f))
    ensures r.Success? && r.value >= 0 ==>
      exists f :: FormValue(f) == r.value && c[0] in FormSet(t, f)
             && forall f' :: FormValue(f') < r.value ==> c[0] !in FormSet(t, f')
  {
    if |c| != 1 then Failure(NotACharacter(c))
    else
      var form := FirstForm(t, c[0]);
      FirstFormFacts(t, c[0]);
      if form == -1 && throwUnknown then Failure(FormNotFound(c)) else Success(form)
  }

  /** The form lookup of `get_form_of_letter` over the form-letter map. */
  function FirstForm(t: Table, g: char): int
  {
    var m := FormLetterMap(t);
    if g in m[Isolated] then 0
    else if g in m[Initial] then 1
    else if g in m[Final] then 2
    else if g in m[Medial] then 3
    else -1
  }

  lemma FirstFormFacts(t: Table, g: char)
    ensures -1 <= FirstForm(t, g) <= 3
    ensures FirstForm(t, g) == -1 <==> forall f :: g !in FormSet(t, f)
    ensures FirstForm(t, g) >= 0 ==>
      exists f :: FormValue(f) == FirstForm(t, g) && g in FormSet(t, f)
             && forall f' :: FormValue(f') < FirstForm(t, g) ==> g !in FormSet(t, f')
  {
    var form := FirstForm(t, g);
    if form == -1 {
      NotInAnyFormSet(t, g);
    } else {
      var f := if form == 0 then Isolated else if form == 1 then Initial else if form == 2 then Final else Medial;
      assert FormValue(f) == form && g in FormSet(t, f);
      forall f' | FormValue(f') < form
        ensures g !in FormSet(t, f')
      {
        match f'
        case Isolated =>
        case Initial =>
        case Final =>
        case Medial =>
      }
    }
  }

  /** Every glyph shaping produces for a known letter is recognised by
      `get_form_of_letter`. */
  lemma ShapedGlyphsHaveAForm(t: Table, s: string, i: nat, throwUnknown: bool)
    requires i < |s| && s[i] in t && GetLetterForm(t, s, i).Some?
    ensures GetFormOfLetter(t, [GetLetterForm(t, s, i).value], throwUnknown).Success?
    ensures GetFormOfLetter(t, [GetLetterForm(t, s, i).value], throwUnknown).value >= 0
  {
    var g := GetLetterForm(t, s, i).value;
    var l := t[s[i]];
    var f :| FormOf(l, f) == Some(g) by {
      var r := ConnectedForm(l, JoinFlag(t, s, i));
      if r == l.isolated { assert FormOf(l, Isolated) == Some(g); }
      else if r == l.initial { assert FormOf(l, Initial) == Some(g); }
      else if r == l.final { assert FormOf(l, Final) == Some(g); }
      else { assert FormOf(l, Medial) == Some(g); }
    }
    assert g in FormSet(t, f);
    assert [g][0] == g;
  }
}
