/** symbol.c: a boolean choice, its members, and the user's pick. */
module Choice {
  import opened Wrappers
  import opened Expressions

  /** What the rest of the configuration says about a choice and its members. */
  datatype Inputs = Inputs(
    optional: bool,
    prompt: Tri,              // the visibility of the choice's prompt
    conds: seq<Tri>,          // for each member, the visibility of its prompt as far as the choice is not concerned
    fallback: seq<Tri>,       // for each member, the value of its own default, or n
    defaults: seq<(Tri, nat)> // the defaults of the choice: the visibility, and the member
  )
  {
    predicate Valid() {
      |fallback| == |conds| && forall i :: 0 <= i < |defaults| ==> defaults[i].1 < |conds|
    }
  }

  /** What the user has said about the choice itself. */
  datatype User = User(tri: Tri, pick: Option<nat>, known: bool)

  /** The inputs of one recalculation: those of the configuration, of the user, and the members he has set. */
  datatype Group = Group(inp: Inputs, user: User, marks: seq<bool>)
  {
    predicate Valid() {
      && inp.Valid() && |marks| == |inp.conds|
      && (user.pick.Some? ==> user.pick.value < |marks|)
    }
  }

  // ---- what a recalculation gives ----

  function Promoted(t: Tri): Tri {
    if t == MOD then YES else t
  }

  /** A choice that is not optional selects itself wherever its prompt is visible. */
  function RevDep(inp: Inputs): Tri {
    if inp.optional then NO else Promoted(Min(inp.prompt, MOD))
  }

  /** The value of the choice before one of its members is looked for. */
  function Wanted(g: Group): Tri {
    var visible := Promoted(g.inp.prompt);
    var own := if visible != NO && g.user.known then Min(g.user.tri, visible) else NO;
    Promoted(Max(own, RevDep(g.inp)))
  }

  function Visible(g: Group, i: nat): Tri
    requires i < |g.inp.conds|
  {
    Promoted(Min(Wanted(g), g.inp.conds[i]))
  }

  /** The member of the first visible default that is visible itself. */
  function FirstDefault(g: Group, from: nat): Option<nat>
    requires g.Valid() && from <= |g.inp.defaults|
    decreases |g.inp.defaults| - from
  {
    if from == |g.inp.defaults| then None
    else
      var (tri, m) := g.inp.defaults[from];
      if tri != NO && Visible(g, m) != NO then Some(m) else FirstDefault(g, from + 1)
  }

  function FirstVisible(g: Group, from: nat): Option<nat>
    requires from <= |g.inp.conds|
    decreases |g.inp.conds| - from
  {
    if from == |g.inp.conds| then None
    else if Visible(g, from) != NO then Some(from)
    else FirstVisible(g, from + 1)
  }

  function ChoiceDefault(g: Group): Option<nat>
    requires g.Valid()
  {
    if FirstDefault(g, 0).Some? then FirstDefault(g, 0) else FirstVisible(g, 0)
  }

  /** The member the choice decides for. */
  function Pick(g: Group): Option<nat>
    requires g.Valid()
  {
    if Wanted(g) != YES then None
    else if g.user.pick.Some? && Visible(g, g.user.pick.value) != NO then g.user.pick
    else ChoiceDefault(g)
  }

  function ChoiceTri(g: Group): Tri
    requires g.Valid()
  {
    if Wanted(g) == YES && Pick(g).None? then NO else Wanted(g)
  }

  /** Whether the choice still counts as set by the user afterwards: only while every visible member does. */
  predicate KnownAfter(g: Group)
    requires g.Valid()
  {
    g.user.known && (Wanted(g) == YES ==> forall i :: 0 <= i < |g.marks| && Visible(g, i) != NO ==> g.marks[i])
  }

  function MemberTri(g: Group, i: nat): Tri
    requires g.Valid() && i < |g.marks|
  {
    if Visible(g, i) == YES then (if Pick(g) == Some(i) then YES else NO)
    else Promoted(Min(ChoiceTri(g), g.inp.fallback[i]))
  }

  // ---- what that means ----

  lemma VisibleIsYesOrNo(g: Group, i: nat)
    requires i < |g.inp.conds|
    ensures Wanted(g) == NO || Wanted(g) == YES
    ensures Visible(g, i) == NO || Visible(g, i) == YES
    ensures Visible(g, i) == YES <==> Wanted(g) == YES && g.inp.conds[i] != NO
  {
  }

  lemma {:induction false} FirstVisibleIs(g: Group, from: nat)
    requires from <= |g.inp.conds|
    ensures match FirstVisible(g, from)
            case None => forall j :: from <= j < |g.inp.conds| ==> Visible(g, j) == NO
            case Some(m) => from <= m < |g.inp.conds| && Visible(g, m) != NO && forall j :: from <= j < m ==> Visible(g, j) == NO
    decreases |g.inp.conds| - from
  {
    if from < |g.inp.conds| {
      FirstVisibleIs(g, from + 1);
    }
  }

  lemma {:induction false} FirstDefaultIs(g: Group, from: nat)
    requires g.Valid() && from <= |g.inp.defaults|
    ensures match FirstDefault(g, from)
            case None => forall j :: from <= j < |g.inp.defaults| ==> !Offers(g, j)
            case Some(m) => exists k :: from <= k < |g.inp.defaults| && Offers(g, k) && g.inp.defaults[k].1 == m
                                        && forall j :: from <= j < k ==> !Offers(g, j)
    decreases |g.inp.defaults| - from
  {
    if from < |g.inp.defaults| {
      FirstDefaultIs(g, from + 1);
      if Offers(g, from) {
      } else if FirstDefault(g, from + 1).Some? {
        var k :| from + 1 <= k < |g.inp.defaults| && Offers(g, k) && g.inp.defaults[k].1 == FirstDefault(g, from + 1).value
                 && forall j :: from + 1 <= j < k ==> !Offers(g, j);
        assert forall j :: from <= j < k ==> !Offers(g, j);
      }
    }
  }

  /** A default that is visible and names a visible member. */
  predicate Offers(g: Group, j: nat)
    requires g.Valid() && j < |g.inp.defaults|
  {
    g.inp.defaults[j].0 != NO && Visible(g, g.inp.defaults[j].1) != NO
  }

  /** The choice is visible and cannot be left out, or the user wants it, and some member of it is visible. */
  ghost predicate Live(g: Group)
    requires g.Valid()
  {
    && g.inp.prompt != NO && (!g.inp.optional || (g.user.known && g.user.tri != NO))
    && exists i :: 0 <= i < |g.marks| && g.inp.conds[i] != NO
  }

  lemma LivePicks(g: Group)
    requires g.Valid() && Live(g)
    ensures ChoiceTri(g) == YES && Pick(g).Some? && Pick(g).value < |g.marks| && Visible(g, Pick(g).value) == YES
  {
    assert Wanted(g) == YES;
    var i :| 0 <= i < |g.marks| && g.inp.conds[i] != NO;
    VisibleIsYesOrNo(g, i);
    FirstDefaultIs(g, 0);
    FirstVisibleIs(g, 0);
    VisibleIsYesOrNo(g, Pick(g).value);
  }

  /** Any other choice is n, decides for none of its members, and no member of it is y. */
  lemma DeadIsNo(g: Group)
    requires g.Valid() && !Live(g)
    ensures ChoiceTri(g) == NO && Pick(g) == None
    ensures forall i :: 0 <= i < |g.marks| ==> Visible(g, i) == NO && MemberTri(g, i) == NO
  {
    assert Wanted(g) == YES <==> g.inp.prompt != NO && (!g.inp.optional || (g.user.known && g.user.tri != NO));
    forall i | 0 <= i < |g.marks|
      ensures Visible(g, i) == NO
    {
      VisibleIsYesOrNo(g, i);
    }
    FirstDefaultIs(g, 0);
    FirstVisibleIs(g, 0);
  }

  /** A choice that is y counts as set from then on exactly if it did and the user has set all its visible members. */
  lemma KnownLaw(g: Group)
    requires g.Valid()
    ensures KnownAfter(g) <==> g.user.known && (Live(g) ==> forall i :: 0 <= i < |g.marks| && g.inp.conds[i] != NO ==> g.marks[i])
  {
    if Live(g) {
      LivePicks(g);
    } else {
      DeadIsNo(g);
    }
    forall i | 0 <= i < |g.marks|
      ensures Visible(g, i) != NO ==> Live(g)
      ensures Live(g) ==> (Visible(g, i) != NO <==> g.inp.conds[i] != NO)
    {
      VisibleIsYesOrNo(g, i);
    }
  }

  /** The pick is the user's if that is visible, else the first default that offers one, else the first visible member. */
  lemma PickIs(g: Group)
    requires g.Valid() && Live(g)
    ensures Pick(g).Some? && Pick(g).value < |g.marks|
    ensures var m := Pick(g).value;
            if g.user.pick.Some? && Visible(g, g.user.pick.value) != NO then m == g.user.pick.value
            else if exists k :: 0 <= k < |g.inp.defaults| && Offers(g, k) then
              exists k :: 0 <= k < |g.inp.defaults| && Offers(g, k) && m == g.inp.defaults[k].1
                          && forall j :: 0 <= j < k ==> !Offers(g, j)
            else Visible(g, m) != NO && forall j :: 0 <= j < m ==> Visible(g, j) == NO
  {
    LivePicks(g);
    FirstDefaultIs(g, 0);
    FirstVisibleIs(g, 0);
  }

  /**
   * Among the visible members exactly the pick is y. That no other member is y holds if and only if no invisible
   * member has a default of its own.
   */
  lemma ExactlyOne(g: Group)
    requires g.Valid() && Live(g)
    ensures Pick(g).Some? && Pick(g).value < |g.marks| && MemberTri(g, Pick(g).value) == YES
    ensures forall i :: 0 <= i < |g.marks| && Visible(g, i) == YES && i != Pick(g).value ==> MemberTri(g, i) == NO
    ensures forall i :: 0 <= i < |g.marks| && g.inp.conds[i] == NO ==>
              MemberTri(g, i) == if g.inp.fallback[i] == NO then NO else YES
    ensures (forall i :: 0 <= i < |g.marks| && i != Pick(g).value ==> MemberTri(g, i) == NO)
       <==> (forall i :: 0 <= i < |g.marks| && g.inp.conds[i] == NO ==> g.inp.fallback[i] == NO)
  {
    LivePicks(g);
    forall i | 0 <= i < |g.marks|
      ensures Visible(g, i) == YES <==> g.inp.conds[i] != NO
      ensures Visible(g, i) != YES ==> MemberTri(g, i) == Promoted(g.inp.fallback[i])
    {
      VisibleIsYesOrNo(g, i);
    }
  }

  /** Once a visible member is the user's pick, the next recalculation decides for it, whatever was set before. */
  lemma PickedStays(g: Group, m: nat, h: Group)
    requires g.Valid() && m < |g.marks| && Visible(g, m) == YES
    requires h.Valid() && h.inp == g.inp && h.user == User(g.user.tri, Some(m), true)
    ensures Pick(h) == Some(m) && MemberTri(h, m) == YES && ChoiceTri(h) == YES
  {
    VisibleIsYesOrNo(g, m);
    assert Wanted(h) == YES;
    VisibleIsYesOrNo(h, m);
  }

  /** Where no member is visible, taking the choice back to n leaves them so. */
  lemma NoneToPick(g: Group, i: nat)
    requires g.Valid() && i < |g.marks|
    ensures Promoted(Min(ChoiceTri(g), g.inp.conds[i])) == Visible(g, i)
  {
    if Wanted(g) == YES && Pick(g).None? {
      FirstVisibleIs(g, 0);
    }
  }

  // ---- the symbols ----

  class ChoiceGroup {
    var inp: Inputs
    var user: User           // def[S_DEF_USER] and SYMBOL_DEF_USER of the choice
    var marks: seq<bool>     // SYMBOL_DEF_USER of the members
    var chosen: seq<Tri>       // def[S_DEF_USER].tri of the members
    var choiceValid: bool    // SYMBOL_VALID of the choice
    var tri: Tri             // curr of the choice
    var pick: Option<nat>
    var valid: seq<bool>     // SYMBOL_VALID of the members
    var visible: seq<Tri>    // visible of the members
    var curr: seq<Tri>       // curr.tri of the members
    ghost var g: Group       // what this recalculation started from

    ghost predicate Valid()
      reads this
    {
      && g.Valid() && inp == g.inp && |marks| == |g.marks|
      && |chosen| == |marks| && |valid| == |marks| && |visible| == |marks| && |curr| == |marks|
      && user.tri == g.user.tri && (user.pick.Some? ==> user.pick.value < |marks|)
    }

    /** Nothing is calculated yet. */
    ghost predicate Fresh()
      reads this
    {
      Valid() && !choiceValid && user == g.user && marks == g.marks
    }

    /** The choice is y, and its member is being looked for. */
    ghost predicate Choosing()
      reads this
    {
      Valid() && choiceValid && Wanted(g) == YES && tri == YES && user == g.user && marks == g.marks
    }

    ghost predicate Settled()
      reads this
    {
      Valid() && choiceValid && tri == ChoiceTri(g) && pick == Pick(g)
    }

    /** Every member with the VALID flag has its value. */
    ghost predicate Between()
      reads this
    {
      && (Fresh() || Settled())
      && forall i :: 0 <= i < |valid| && valid[i] ==> choiceValid && curr[i] == MemberTri(g, i) && visible[i] == Visible(g, i)
    }

    /** sym_calc_visibility of a member; its prompt depends on the choice. */
    method CalcVisibility(i: nat)
      requires (Fresh() || Choosing() || Settled()) && i < |marks|
      modifies `choiceValid, `tri, `pick, `user, `visible
      ensures Valid() && visible[i] == Visible(g, i) && |visible| == old(|visible|)
      ensures forall j :: 0 <= j < |visible| ==> visible[j] == old(visible)[j] || visible[j] == Visible(g, j)
      ensures old(choiceValid) ==> choiceValid && tri == old(tri) && pick == old(pick) && user == old(user)
      ensures !old(choiceValid) ==> Settled() && user == g.user.(known := KnownAfter(g))
      decreases if choiceValid then 0 else 1, 1
    {
      CalcChoice();
      NoneToPick(g, i);
      visible := visible[i := Promoted(Min(tri, inp.conds[i]))];
    }

    /** sym_calc_value of the choice. */
    method CalcChoice()
      requires Fresh() || Choosing() || Settled()
      modifies `choiceValid, `tri, `pick, `user, `visible
      ensures Valid() && |visible| == old(|visible|)
      ensures forall j :: 0 <= j < |visible| ==> visible[j] == old(visible)[j] || visible[j] == Visible(g, j)
      ensures old(choiceValid) ==> choiceValid && tri == old(tri) && pick == old(pick) && user == old(user)
      ensures !old(choiceValid) ==> Settled() && user == g.user.(known := KnownAfter(g))
      decreases if choiceValid then 0 else 1, 0
    {
      if choiceValid {
        return;
      }
      choiceValid := true;
      var seen, rev := Promoted(inp.prompt), RevDep(inp);
      var value := NO;
      if seen != NO && user.known {
        value := Min(user.tri, seen);
      }
      value := Promoted(Max(value, rev));
      tri, pick := value, None;
      if value == YES {
        pick := CalcPick();
      }
    }

    /** sym_calc_choice. */
    method CalcPick() returns (m: Option<nat>)
      requires Choosing()
      modifies `choiceValid, `tri, `pick, `user, `visible
      ensures Valid() && choiceValid && tri == ChoiceTri(g) && m == Pick(g)
      ensures user == g.user.(known := KnownAfter(g)) && |visible| == old(|visible|)
      ensures forall j :: 0 <= j < |visible| ==> visible[j] == Visible(g, j)
      decreases 0, 2
    {
      var all := true;
      var i := 0;
      while i < |inp.conds|
        invariant Choosing() && 0 <= i <= |inp.conds|
        invariant forall j :: 0 <= j < i ==> visible[j] == Visible(g, j)
        invariant all <==> forall j :: 0 <= j < i && Visible(g, j) != NO ==> marks[j]
      {
        CalcVisibility(i);
        if visible[i] != NO {
          all := all && marks[i];
        }
        i := i + 1;
      }
      user := user.(known := user.known && all);
      if user.pick.Some? && visible[user.pick.value] != NO {
        return user.pick;
      }
      m := Default();
      if m.None? {
        tri := NO;
      }
    }

    /** sym_choice_default. */
    method Default() returns (m: Option<nat>)
      requires Valid() && forall j :: 0 <= j < |visible| ==> visible[j] == Visible(g, j)
      ensures m == ChoiceDefault(g)
    {
      var i := 0;
      while i < |inp.defaults|
        invariant 0 <= i <= |inp.defaults| && FirstDefault(g, 0) == FirstDefault(g, i)
      {
        if inp.defaults[i].0 != NO && visible[inp.defaults[i].1] != NO {
          return Some(inp.defaults[i].1);
        }
        i := i + 1;
      }
      i := 0;
      while i < |inp.conds|
        invariant 0 <= i <= |inp.conds| && FirstVisible(g, 0) == FirstVisible(g, i)
      {
        if visible[i] != NO {
          return Some(i);
        }
        i := i + 1;
      }
      return None;
    }

    /** sym_calc_value of a member. */
    method CalcMember(i: nat)
      requires Between() && i < |marks|
      modifies this
      ensures Between() && g == old(g) && inp == old(inp) && marks == old(marks) && chosen == old(chosen)
      ensures user.pick == old(user).pick
      ensures valid == old(valid)[i := true]
    {
      if valid[i] {
        assert valid == valid[i := true];
        return;
      }
      valid := valid[i := true];
      CalcVisibility(i);
      var value := NO;
      if visible[i] == YES {
        value := if pick == Some(i) then YES else NO;
      } else {
        value := Promoted(Min(tri, inp.fallback[i]));
      }
      curr := curr[i := value];
    }

    /** Ask for members in any order, each as often as wanted: every one has the value defined above. */
    method CalcAll(order: seq<nat>)
      requires Between() && forall k :: 0 <= k < |order| ==> order[k] < |marks|
      modifies this
      ensures Between() && g == old(g) && inp == old(inp) && marks == old(marks) && chosen == old(chosen)
      ensures user.pick == old(user).pick
      ensures forall i :: 0 <= i < |valid| && (i in order || old(valid)[i]) ==> valid[i] && curr[i] == MemberTri(g, i)
    {
      var k := 0;
      while k < |order|
        invariant 0 <= k <= |order| && Between() && g == old(g) && inp == old(inp) && marks == old(marks)
        invariant chosen == old(chosen) && user.pick == old(user).pick
        invariant forall i :: 0 <= i < |valid| && (i in order[..k] || old(valid)[i]) ==> valid[i]
      {
        CalcMember(order[k]);
        k := k + 1;
      }
      assert order[..k] == order;
    }

    /** sym_clear_all_valid, after which the rest of the configuration may be seen to have changed. */
    method ClearAllValid(inp: Inputs)
      requires Valid() && inp.Valid() && |inp.conds| == |marks|
      modifies `choiceValid, `valid, `inp, `g
      ensures Between() && Fresh() && g == Group(inp, user, marks)
      ensures forall i :: 0 <= i < |valid| ==> !valid[i]
    {
      choiceValid := false;
      valid := seq(|marks|, _ => false);
      this.inp := inp;
      g := Group(inp, user, marks);
    }

    /** sym_tristate_within_range of a member. */
    function WithinRange(i: nat, val: Tri): bool
      requires i < |visible|
      reads this
    {
      && visible[i] != NO && val != MOD
      && (if visible[i] == YES then val == YES else val <= visible[i])
    }

    /** sym_set_tristate_value of a member. */
    method SetTristateValue(i: nat, val: Tri) returns (ok: bool)
      requires Between() && i < |valid| && valid[i]
      modifies this
      ensures Between() && curr == old(curr) && visible == old(visible) && inp == old(inp)
      ensures ok <==> old(curr)[i] == val || (val == YES && old(visible)[i] == YES)
      ensures !ok ==> marks == old(marks) && user == old(user) && chosen == old(chosen)
      ensures ok ==> chosen == old(chosen)[i := val] && marks[i]
      ensures ok && val == YES ==>
                && user == User(old(user).tri, Some(i), true)
                && forall j :: 0 <= j < |marks| ==> marks[j] == (old(marks)[j] || j == i || old(visible)[j] != NO)
      ensures ok && val != YES ==> user == old(user) && marks == old(marks)[i := true]
      ensures ok && old(curr)[i] != val ==> Fresh() && g == Group(inp, user, marks)
      ensures !ok || old(curr)[i] == val ==> choiceValid == old(choiceValid) && valid == old(valid) && g == old(g)
    {
      VisibleIsYesOrNo(g, i);
      var oldval := curr[i];
      if oldval != val && !WithinRange(i, val) {
        return false;
      }
      marks := marks[i := true];
      if val == YES {
        user := User(user.tri, Some(i), true);
        marks := seq(|marks|, j requires 0 <= j < |marks| && |visible| == |marks| reads this => marks[j] || visible[j] != NO);
      }
      chosen := chosen[i := val];
      if oldval != val {
        ClearAllValid(inp);
      }
      return true;
    }

    /**
     * The user picks a visible member: the call succeeds, and however the symbols are asked for then, that member is
     * y and, unless members have defaults of their own, it is the only one.
     */
    method PickMember(i: nat, order: seq<nat>) returns (ok: bool)
      requires Between() && i < |valid| && valid[i]
      requires i in order && forall k :: 0 <= k < |order| ==> order[k] < |marks|
      modifies this
      ensures ok <==> old(curr)[i] == YES || old(visible)[i] == YES
      ensures Between() && inp == old(inp) && (ok ==> valid[i] && curr[i] == YES && user.pick == Some(i))
      ensures old(visible)[i] == YES ==> pick == Some(i) && tri == YES
      ensures old(visible)[i] == YES ==>
                forall j :: 0 <= j < |valid| && valid[j] && j != i && visible[j] == YES ==> curr[j] == NO
    {
      ghost var g0 := g;
      ok := SetTristateValue(i, YES);
      if ok && old(curr)[i] != YES {
        PickedStays(g0, i, g);
      }
      CalcAll(order);
    }
  }
}
