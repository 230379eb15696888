/**
 * Player names and lookups (src/lib/player.ts): validating a name against
 * the field and finding a player by id.
 */
module Players {
  import opened Types
  import opened Util

  /** How many players carry `name`. */
  function CountName(name: string, players: seq<Player>): (r: nat)
    ensures r <= |players|
  {
    if players == [] then 0
    else CountName(name, players[..|players| - 1]) + (if players[|players| - 1].name == name then 1 else 0)
  }

  /** `name` is carried by two different players of the list. */
  predicate NameTwice(name: string, players: seq<Player>)
  {
    exists i, j :: 0 <= i < j < |players| && players[i].name == name && players[j].name == name
  }

  /** No player carries `name`: the count is zero. */
  lemma {:induction false} CountNameZero(name: string, players: seq<Player>)
    ensures CountName(name, players) == 0 <==> forall i :: 0 <= i < |players| ==> players[i].name != name
  {
    if players != [] {
      var init := players[..|players| - 1];
      CountNameZero(name, init);
      assert forall i :: 0 <= i < |init| ==> init[i] == players[i];
    }
  }

  /** The count exceeds one exactly when two different players carry the name. */
  lemma {:induction false} CountNameTwice(name: string, players: seq<Player>)
    ensures CountName(name, players) > 1 <==> NameTwice(name, players)
  {
    if players != [] {
      var n := |players|;
      var init := players[..n - 1];
      CountNameTwice(name, init);
      assert forall i :: 0 <= i < |init| ==> init[i] == players[i];
      if players[n - 1].name == name {
        CountNameZero(name, init);
        if CountName(name, players) > 1 {
          var i :| 0 <= i < |init| && init[i].name == name;
          assert players[i].name == name;
        }
      }
      if NameTwice(name, players) {
        var i, j :| 0 <= i < j < n && players[i].name == name && players[j].name == name;
        if j < n - 1 {
          assert init[i].name == name && init[j].name == name;
        } else {
          assert init[i].name == name;
          CountNameZero(name, init);
        }
      }
    }
  }

  /** `hasDuplicatedPlayerName`: the counting loop over the players. */
  method HasDuplicatedPlayerName(name: string, players: seq<Player>) returns (duplicated: bool)
    ensures duplicated <==> NameTwice(name, players)
  {
    var count := 0;
    for k := 0 to |players|
      invariant count == CountName(name, players[..k])
    {
      assert players[..k + 1][..k] == players[..k];
      if players[k].name == name {
        count := count + 1;
      }
    }
    assert players[..|players|] == players;
    CountNameTwice(name, players);
    duplicated := count > 1;
  }

  /** `isValidPlayerName`: an empty name first, then a name two players carry. */
  function IsValidPlayerName(name: string, players: seq<Player>): (r: NameValidation)
    ensures r == Empty <==> name == []
    ensures r == Duplicated <==> name != [] && NameTwice(name, players)
    ensures r == Valid <==> name != [] && !NameTwice(name, players)
  {
    if IsEmpty(name) then Empty
    else
      CountNameTwice(name, players);
      if CountName(name, players) > 1 then Duplicated
      else Valid
  }

  /** A field of at most one player never makes a name a duplicate. */
  lemma SmallFieldHasNoDuplicate(name: string, players: seq<Player>)
    requires |players| <= 1
    ensures IsValidPlayerName(name, players) != Duplicated
  {
  }

  /** The message shown under the name field when the name is taken. */
  const DuplicatedMessage: string := "すでに使用されています"

  /** `getHelperTextForNameValidation`: a message only for a name already taken. */
  function GetHelperTextForNameValidation(name: string, players: seq<Player>): (text: string)
    ensures text != [] <==> IsValidPlayerName(name, players) == Duplicated
    ensures text != [] ==> text == DuplicatedMessage
  {
    match IsValidPlayerName(name, players)
    case Duplicated => DuplicatedMessage
    case Empty => ""
    case Valid => ""
  }

  /** `findPlayerById`: the first player with the id, or undefined. */
  function FindPlayerById(id: PlayerId, players: seq<Player>): (r: Option<Player>)
    ensures r.None? <==> forall i :: 0 <= i < |players| ==> players[i].id != id
    ensures r.Some? ==> exists i :: 0 <= i < |players| && players[i] == r.value && r.value.id == id
                                    && forall j :: 0 <= j < i ==> players[j].id != id
  {
    if players == [] then None
    else if players[0].id == id then Some(players[0])
    else
      var r := FindPlayerById(id, players[1..]);
      assert forall j :: 1 <= j < |players| ==> players[j] == players[1..][j - 1];
      if r.Some? then
        var i :| 0 <= i < |players[1..]| && players[1..][i] == r.value && r.value.id == id
                 && forall j :: 0 <= j < i ==> players[1..][j].id != id;
        assert players[i + 1] == r.value && forall j :: 0 <= j < i + 1 ==> players[j].id != id;
        r
      else r
  }

  /** `getPlayerName`: the name of the first player with the id, or "" when there is none. */
  function GetPlayerName(id: PlayerId, players: seq<Player>): (name: string)
    ensures (exists i :: 0 <= i < |players| && players[i].id == id && players[i].name == name
                         && forall j :: 0 <= j < i ==> players[j].id != id)
            || (name == [] && forall i :: 0 <= i < |players| ==> players[i].id != id)
  {
    match FindPlayerById(id, players)
    case Some(p) => p.name
    case None => ""
  }

  /** Player ids are unique in a field, so a player's name is found by its id. */
  lemma NameOfListedPlayer(players: seq<Player>, i: nat)
    requires i < |players| && Distinct(Ids(players))
    ensures GetPlayerName(players[i].id, players) == players[i].name
  {
    var ids := Ids(players);
    var id := players[i].id;
    var name := GetPlayerName(id, players);
    if k :| 0 <= k < |players| && players[k].id == id && players[k].name == name {
      assert ids[k] == ids[i];
    }
  }
}
