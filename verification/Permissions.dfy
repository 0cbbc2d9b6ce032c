/** Permissions and the repository permission ladder. */
module Permissions {
  import opened Sequences

  datatype Permission = Permission(resource: string, action: string)

  const BUILTIN: seq<Permission> := [
    Permission("repo", "read"), Permission("repo", "write"), Permission("repo", "admin"),
    Permission("repo", "maintain"), Permission("repo", "triage"),
    Permission("contents", "read"), Permission("contents", "write"),
    Permission("issues", "read"), Permission("issues", "write"), Permission("issues", "triage"),
    Permission("pulls", "read"), Permission("pulls", "write"),
    Permission("pulls", "review"), Permission("pulls", "merge"),
    Permission("actions", "read"), Permission("actions", "write"), Permission("actions", "run"),
    Permission("packages", "read"), Permission("packages", "write"), Permission("packages", "delete"),
    Permission("wiki", "read"), Permission("wiki", "write"),
    Permission("settings", "read"), Permission("settings", "write"), Permission("settings", "delete"),
    Permission("webhooks", "read"), Permission("webhooks", "write"),
    Permission("members", "read"), Permission("members", "invite"), Permission("members", "remove"),
    Permission("org", "read"), Permission("org", "write"), Permission("org", "admin"), Permission("org", "billing"),
    Permission("team", "read"), Permission("team", "write"), Permission("team", "manage_members"),
    Permission("audit", "read")
  ]

  const READ: seq<Permission> := [
    Permission("repo", "read"), Permission("contents", "read"),
    Permission("issues", "read"), Permission("pulls", "read"),
    Permission("actions", "read"), Permission("packages", "read"), Permission("wiki", "read"),
    Permission("members", "read"), Permission("org", "read"), Permission("team", "read")
  ]

  const TRIAGE: seq<Permission> := [Permission("issues", "triage"), Permission("pulls", "review")]

  const WRITE: seq<Permission> := [
    Permission("repo", "write"), Permission("contents", "write"),
    Permission("issues", "write"), Permission("pulls", "write"),
    Permission("actions", "write"), Permission("actions", "run"),
    Permission("packages", "write"), Permission("wiki", "write"),
    Permission("webhooks", "read"), Permission("webhooks", "write")
  ]

  const MAINTAIN: seq<Permission> := [
    Permission("repo", "maintain"), Permission("pulls", "merge"),
    Permission("settings", "read"), Permission("members", "invite")
  ]

  function Flatten(lists: seq<seq<Permission>>): set<Permission> {
    if lists == [] then {} else Flatten(lists[..|lists| - 1]) + Elements(lists[|lists| - 1])
  }

  /** The permissions of several lists, each once. */
  method Union(lists: seq<seq<Permission>>) returns (out: seq<Permission>)
    ensures Elements(out) == Flatten(lists)
    ensures forall i, j :: 0 <= i < j < |out| ==> out[i] != out[j]
  {
    var seen: set<Permission> := {};
    out := [];
    for i := 0 to |lists|
      invariant seen == Elements(out) == Flatten(lists[..i])
      invariant forall i, j :: 0 <= i < j < |out| ==> out[i] != out[j]
    {
      var list := lists[i];
      for j := 0 to |list|
        invariant seen == Elements(out) == Flatten(lists[..i]) + Elements(list[..j])
        invariant forall i, j :: 0 <= i < j < |out| ==> out[i] != out[j]
      {
        assert Elements(list[..j + 1]) == Elements(list[..j]) + {list[j]};
        if list[j] !in seen {
          assert Elements(out + [list[j]]) == Elements(out) + {list[j]};
          assert forall i :: 0 <= i < |out| ==> out[i] in Elements(out);
          seen := seen + {list[j]};
          out := out + [list[j]];
        }
      }
      assert list[..|list|] == list && lists[..i + 1][..i] == lists[..i];
    }
    assert lists[..|lists|] == lists;
  }

  // ---------------------------------------------------------------------
  // The ladder
  // ---------------------------------------------------------------------

  function RankOf(name: string): (rank: int)
    ensures -1 <= rank <= 4
  {
    if name == "read" then 0
    else if name == "triage" then 1
    else if name == "write" then 2
    else if name == "maintain" then 3
    else if name == "admin" then 4
    else -1
  }

  /** The sets of a rank and of those below it; the highest rank has a set of its own. */
  function Rungs(rank: int, a: set<Permission>, b: set<Permission>, c: set<Permission>, d: set<Permission>,
                 all: set<Permission>): set<Permission>
  {
    match rank
    case 0 => a
    case 1 => a + b
    case 2 => a + b + c
    case 3 => a + b + c + d
    case 4 => all
    case _ => {}
  }

  function LadderAt(rank: int): set<Permission> {
    Rungs(rank, Elements(READ), Elements(TRIAGE), Elements(WRITE), Elements(MAINTAIN), Elements(BUILTIN))
  }

  /** Permissions of a collaborator level. */
  function Ladder(level: string): set<Permission> { LadderAt(RankOf(level)) }

  /** The list built for a level by uniting the lists below it. */
  method LadderPermissions(level: string) returns (ps: seq<Permission>)
    ensures Elements(ps) == Ladder(level)
  {
    match RankOf(level)
    case 0 => ps := READ;
    case 1 => ps := UnionOf([READ, TRIAGE]);
    case 2 => ps := UnionOf([READ, TRIAGE, WRITE]);
    case 3 => ps := UnionOf([READ, TRIAGE, WRITE, MAINTAIN]);
    case 4 => ps := BUILTIN;
    case _ => ps := [];
  }

  /** Up to four lists united. */
  method UnionOf(lists: seq<seq<Permission>>) returns (out: seq<Permission>)
    requires 2 <= |lists| <= 4
    ensures Elements(out) == Elements(lists[0]) + Elements(lists[1]) +
                             (if |lists| > 2 then Elements(lists[2]) else {}) +
                             (if |lists| > 3 then Elements(lists[3]) else {})
  {
    out := Union(lists);
    var n := |lists|;
    assert lists[..n - 1][..n - 2] == lists[..n - 2];
    assert Flatten(lists) == Flatten(lists[..n - 1]) + Elements(lists[n - 1]);
    assert Flatten(lists[..n - 1]) == Flatten(lists[..n - 2]) + Elements(lists[n - 2]);
    if n > 2 {
      assert lists[..n - 2][..n - 3] == lists[..n - 3];
      assert Flatten(lists[..n - 2]) == Flatten(lists[..n - 3]) + Elements(lists[n - 3]);
    }
    if n > 3 {
      assert lists[..1][..0] == [];
      assert Flatten(lists[..1]) == Flatten([]) + Elements(lists[0]);
    }
  }

  lemma LevelsAreBuiltin()
    ensures Elements(READ) <= Elements(BUILTIN) && Elements(TRIAGE) <= Elements(BUILTIN)
    ensures Elements(WRITE) <= Elements(BUILTIN) && Elements(MAINTAIN) <= Elements(BUILTIN)
  {
    var b := BUILTIN;
    assert READ == [b[0], b[5], b[7], b[10], b[14], b[17], b[20], b[27], b[30], b[34]];
    assert TRIAGE == [b[9], b[12]];
    assert WRITE == [b[1], b[6], b[8], b[11], b[15], b[16], b[18], b[21], b[25], b[26]];
    assert MAINTAIN == [b[3], b[13], b[22], b[28]];
  }

  /** The permission that first appears at a rank. */
  function Mark(rank: int): Permission {
    if rank == 0 then Permission("repo", "read")
    else if rank == 1 then Permission("issues", "triage")
    else if rank == 2 then Permission("repo", "write")
    else if rank == 3 then Permission("repo", "maintain")
    else Permission("repo", "admin")
  }

  /** All actions of a list start with one of the given letters. */
  predicate Initials(ps: seq<Permission>, letters: string) {
    forall i :: 0 <= i < |ps| ==> ps[i].action != "" && ps[i].action[0] in letters
  }

  lemma LevelInitials()
    ensures Initials(READ, "r") && Initials(TRIAGE, "tr") && Initials(WRITE, "wr") && Initials(MAINTAIN, "mri")
  {
  }

  lemma NotAmong(p: Permission, ps: seq<Permission>, letters: string)
    requires Initials(ps, letters) && p.action != "" && p.action[0] !in letters
    ensures p !in Elements(ps)
  {
  }

  /** The ranks build on each other and each adds its mark. */
  ghost predicate Stacked(a: set<Permission>, b: set<Permission>, c: set<Permission>, d: set<Permission>,
                          all: set<Permission>)
  {
    && a <= all && b <= all && c <= all && d <= all
    && Mark(0) in a && Mark(1) in b && Mark(2) in c && Mark(3) in d && Mark(4) in all
    && Mark(1) !in a && Mark(2) !in a && Mark(3) !in a && Mark(4) !in a
    && Mark(2) !in b && Mark(3) !in b && Mark(4) !in b
    && Mark(3) !in c && Mark(4) !in c && Mark(4) !in d
  }

  lemma LevelsStacked()
    ensures Stacked(Elements(READ), Elements(TRIAGE), Elements(WRITE), Elements(MAINTAIN), Elements(BUILTIN))
  {
    LevelsAreBuiltin();
    LevelInitials();
    NotAmong(Mark(1), READ, "r");
    NotAmong(Mark(2), READ, "r");
    NotAmong(Mark(2), TRIAGE, "tr");
    NotAmong(Mark(3), READ, "r");
    NotAmong(Mark(3), TRIAGE, "tr");
    NotAmong(Mark(3), WRITE, "wr");
    NotAmong(Mark(4), READ, "r");
    NotAmong(Mark(4), TRIAGE, "tr");
    NotAmong(Mark(4), WRITE, "wr");
    NotAmong(Mark(4), MAINTAIN, "mri");
    MarksAreHeld();
  }

  lemma MarksAreHeld()
    ensures Mark(0) in Elements(READ) && Mark(1) in Elements(TRIAGE) && Mark(2) in Elements(WRITE)
    ensures Mark(3) in Elements(MAINTAIN) && Mark(4) in Elements(BUILTIN)
  {
    assert Mark(0) == READ[0] && Mark(1) == TRIAGE[0] && Mark(2) == WRITE[0] && Mark(3) == MAINTAIN[0];
    assert Mark(4) == BUILTIN[2];
  }

  lemma RungsMonotone(i: int, j: int, a: set<Permission>, b: set<Permission>, c: set<Permission>, d: set<Permission>,
                      all: set<Permission>)
    requires -1 <= i <= 4 && -1 <= j <= 4 && Stacked(a, b, c, d, all)
    ensures Rungs(i, a, b, c, d, all) <= Rungs(j, a, b, c, d, all) <==> i <= j
  {
    if j < i {
      assert Mark(i) in Rungs(i, a, b, c, d, all) && Mark(i) !in Rungs(j, a, b, c, d, all);
    }
  }

  lemma LadderAtMonotone(i: int, j: int)
    requires -1 <= i <= 4 && -1 <= j <= 4
    ensures LadderAt(i) <= LadderAt(j) <==> i <= j
  {
    LevelsStacked();
    RungsMonotone(i, j, Elements(READ), Elements(TRIAGE), Elements(WRITE), Elements(MAINTAIN), Elements(BUILTIN));
  }

  /** A level has all permissions of another exactly when it does not rank lower. */
  lemma LadderMonotone(low: string, high: string)
    ensures Ladder(low) <= Ladder(high) <==> RankOf(low) <= RankOf(high)
  {
    LadderAtMonotone(RankOf(low), RankOf(high));
  }

  // ---------------------------------------------------------------------
  // The levels by name
  // ---------------------------------------------------------------------

  /** All actions of a list are among those given. */
  predicate ActionsAmong(ps: seq<Permission>, actions: seq<string>) {
    forall i :: 0 <= i < |ps| ==> ps[i].action in actions
  }

  ghost predicate LevelActions(level: string, actions: set<string>) {
    forall p :: p in Ladder(level) ==> p.action in actions
  }

  lemma ListActions()
    ensures ActionsAmong(READ, ["read"]) && ActionsAmong(TRIAGE, ["triage", "review"])
    ensures ActionsAmong(WRITE, ["write", "run", "read"])
    ensures ActionsAmong(MAINTAIN, ["maintain", "merge", "read", "invite"])
  {
    assert READ[0].action == READ[1].action == READ[2].action == READ[3].action == READ[4].action == "read";
    assert READ[5].action == READ[6].action == READ[7].action == READ[8].action == READ[9].action == "read";
  }

  lemma Among(p: Permission, ps: seq<Permission>, actions: seq<string>)
    requires p in Elements(ps) && ActionsAmong(ps, actions)
    ensures p.action in actions
  {
  }

  lemma RanksByName()
    ensures RankOf("read") == 0 && RankOf("triage") == 1 && RankOf("write") == 2
    ensures RankOf("maintain") == 3 && RankOf("admin") == 4
    ensures forall s :: s !in ["read", "triage", "write", "maintain", "admin"] ==> RankOf(s) == -1
  {
    assert "triage"[0] != "read"[0] && "write"[0] != "read"[0] && "maintain"[0] != "read"[0] && "admin"[0] != "read"[0];
    assert "write"[0] != "triage"[0] && "maintain"[0] != "triage"[0] && "admin"[0] != "triage"[0];
    assert "maintain"[0] != "write"[0] && "admin"[0] != "write"[0] && "admin"[0] != "maintain"[0];
  }

  /** Five levels, each with more than the one before, up to the whole catalog; any other name has nothing. */
  lemma LevelsGrow()
    ensures Ladder("read") < Ladder("triage") < Ladder("write") < Ladder("maintain") < Ladder("admin")
    ensures Ladder("admin") == Elements(BUILTIN)
    ensures forall s :: s !in ["read", "triage", "write", "maintain", "admin"] ==> Ladder(s) == {}
  {
    RanksByName();
    LadderAtMonotone(0, 1);
    LadderAtMonotone(1, 0);
    LadderAtMonotone(1, 2);
    LadderAtMonotone(2, 1);
    LadderAtMonotone(2, 3);
    LadderAtMonotone(3, 2);
    LadderAtMonotone(3, 4);
    LadderAtMonotone(4, 3);
  }

  /** Each level grants what it is named for, and the level before it does not. */
  lemma LevelsGrantTheirName()
    ensures Permission("repo", "read") in Ladder("read")
    ensures Permission("issues", "triage") in Ladder("triage") && Permission("issues", "triage") !in Ladder("read")
    ensures Permission("repo", "write") in Ladder("write") && Permission("repo", "write") !in Ladder("triage")
    ensures Permission("repo", "maintain") in Ladder("maintain") && Permission("repo", "maintain") !in Ladder("write")
    ensures Permission("repo", "admin") in Ladder("admin") && Permission("repo", "admin") !in Ladder("maintain")
  {
    RanksByName();
    LevelsStacked();
  }

  /** The actions a level can have. */
  lemma LevelActionsByName()
    ensures LevelActions("read", {"read"}) && LevelActions("triage", {"read", "triage", "review"})
    ensures LevelActions("write", {"read", "triage", "review", "write", "run"})
    ensures LevelActions("maintain", {"read", "triage", "review", "write", "run", "maintain", "merge", "invite"})
  {
    RanksByName();
    ListActions();
    forall p | p in Ladder("maintain")
      ensures p in Elements(READ) ==> p.action == "read"
      ensures p in Elements(TRIAGE) ==> p.action in ["triage", "review"]
      ensures p in Elements(WRITE) ==> p.action in ["write", "run", "read"]
      ensures p in Elements(MAINTAIN) ==> p.action in ["maintain", "merge", "read", "invite"]
    {
      if p in Elements(READ) {
        Among(p, READ, ["read"]);
      }
      if p in Elements(TRIAGE) {
        Among(p, TRIAGE, ["triage", "review"]);
      }
      if p in Elements(WRITE) {
        Among(p, WRITE, ["write", "run", "read"]);
      }
      if p in Elements(MAINTAIN) {
        Among(p, MAINTAIN, ["maintain", "merge", "read", "invite"]);
      }
    }
  }

  /** What a reader may do: read everything but settings, webhooks and the audit log. */
  predicate ReaderMay(p: Permission) {
    p.action == "read" && p.resource != "settings" && p.resource != "webhooks" && p.resource != "audit"
  }

  /** Where the catalog lists reading. */
  predicate ReadAt(i: nat) {
    i in [0, 5, 7, 10, 14, 17, 20, 27, 30, 34]
  }

  lemma ReadFirstHalf(i: nat)
    requires i < 19 && ReaderMay(BUILTIN[i])
    ensures ReadAt(i)
  {
  }

  lemma ReadSecondHalf(i: nat)
    requires 19 <= i < |BUILTIN| && ReaderMay(BUILTIN[i])
    ensures ReadAt(i)
  {
  }

  lemma ReadListed(i: nat)
    requires i < |BUILTIN| && ReadAt(i)
    ensures BUILTIN[i] in READ
  {
    var b := BUILTIN;
    assert READ == [b[0], b[5], b[7], b[10], b[14], b[17], b[20], b[27], b[30], b[34]];
  }

  lemma ReadListsOnly(i: nat)
    requires i < |READ|
    ensures ReaderMay(READ[i])
  {
    assert READ[i].resource[0] != 's';
  }

  lemma ReadLevelExactly(p: Permission)
    ensures p in Ladder("read") <==> p in BUILTIN && ReaderMay(p)
  {
    RanksByName();
    LevelsAreBuiltin();
    if p in Ladder("read") {
      var i :| 0 <= i < |READ| && READ[i] == p;
      ReadListsOnly(i);
    }
    if p in BUILTIN && ReaderMay(p) {
      var i :| 0 <= i < |BUILTIN| && BUILTIN[i] == p;
      if i < 19 {
        ReadFirstHalf(i);
      } else {
        ReadSecondHalf(i);
      }
      ReadListed(i);
    }
  }

  // ---------------------------------------------------------------------
  // Colons
  // ---------------------------------------------------------------------

  predicate Plain(p: Permission) { ':' !in p.resource && ':' !in p.action }

  ghost predicate ColonFree(ps: set<Permission>) {
    forall p :: p in ps ==> Plain(p)
  }

  lemma PlainFirst(i: nat)
    requires i < 10
    ensures Plain(BUILTIN[i])
  {
  }

  lemma PlainSecond(i: nat)
    requires 10 <= i < 20
    ensures Plain(BUILTIN[i])
  {
  }

  lemma PlainThird(i: nat)
    requires 20 <= i < 30
    ensures Plain(BUILTIN[i])
  {
  }

  lemma PlainLast(i: nat)
    requires 30 <= i < |BUILTIN|
    ensures Plain(BUILTIN[i])
  {
  }

  /** No builtin permission holds a colon, so none of any level does. */
  lemma BuiltinColonFree()
    ensures ColonFree(Elements(BUILTIN))
  {
    forall p | p in Elements(BUILTIN) ensures Plain(p) {
      var i :| 0 <= i < |BUILTIN| && BUILTIN[i] == p;
      if i < 10 {
        PlainFirst(i);
      } else if i < 20 {
        PlainSecond(i);
      } else if i < 30 {
        PlainThird(i);
      } else {
        PlainLast(i);
      }
    }
  }

  lemma LevelIsPlain(level: string, p: Permission)
    requires p in Ladder(level)
    ensures Plain(p)
  {
    BuiltinColonFree();
    LadderAtMonotone(RankOf(level), 4);
  }
}
