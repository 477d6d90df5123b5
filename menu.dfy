/** The main menu, `main`: each round reads a choice, strips it, and either
    starts one of the two tools, exits, or reports an invalid option. */
module Menu {
  import opened PyStr
  import Cidr

  /** What one round of the menu does. `StartSweep` carries the stripped subnet
      handed to `ping_sweep`; `RejectSubnet` is the "Invalid CIDR format"
      message; `InvalidOption` is the message for any other choice. */
  datatype Action =
    | StartSweep(subnet: string)
    | RejectSubnet
    | StartPortScan
    | Exit(code: int)
    | InvalidOption

  /** The replies of one round: the choice line, and the subnet line, which is
      read only when the choice is "1". */
  datatype Round = Round(choiceLine: string, subnetLine: string)

  /** One round of the menu (lines 153-170). */
  function Dispatch(r: Round): Action
  {
    var choice := Strip(r.choiceLine);
    if choice == "1" then
      var subnet := Strip(r.subnetLine);
      if Cidr.ValidateCidr(subnet) then StartSweep(subnet) else RejectSubnet
    else if choice == "2" then StartPortScan
    else if choice == "3" then Exit(0)
    else InvalidOption
  }

  /** The rounds a session goes through: every reply is dispatched in turn,
      and the session stops after the first round that exits. */
  function Session(rounds: seq<Round>): (actions: seq<Action>)
    ensures |actions| <= |rounds|
    decreases |rounds|
  {
    if rounds == [] then []
    else
      var a := Dispatch(rounds[0]);
      if a.Exit? then [a] else [a] + Session(rounds[1..])
  }

  /** The loop of lines 146-170: round after round until the user exits or
      the replies run out. */
  method MenuLoop(rounds: seq<Round>) returns (actions: seq<Action>)
    ensures actions == Session(rounds)
  {
    actions := [];
    var n := 0;
    while n < |rounds|
      invariant 0 <= n <= |rounds|
      invariant actions + Session(rounds[n..]) == Session(rounds)
      invariant forall m | 0 <= m < |actions| :: !actions[m].Exit?
    {
      assert rounds[n..][1..] == rounds[n + 1..];
      var a := Dispatch(rounds[n]);
      actions := actions + [a];
      if a.Exit? {
        assert actions == Session(rounds);
        return;
      }
      n := n + 1;
    }
    assert rounds[n..] == [];
  }

  /** The choice "3", whatever the white space around it, exits with status 0;
      no other choice exits. */
  lemma DispatchExitIff(r: Round)
    ensures Dispatch(r).Exit? <==> Strip(r.choiceLine) == "3"
    ensures Dispatch(r).Exit? ==> Dispatch(r).code == 0
  {
  }

  /** The sweep starts exactly when the choice is "1" and the stripped subnet is
      well formed: four fields of at most 255 and a prefix of at most 32. */
  lemma DispatchSweepIff(r: Round)
    ensures Dispatch(r).StartSweep? <==>
      Strip(r.choiceLine) == "1" && Cidr.IsWellFormedCidr(Strip(r.subnetLine))
    ensures Dispatch(r) == RejectSubnet <==>
      Strip(r.choiceLine) == "1" && !Cidr.IsWellFormedCidr(Strip(r.subnetLine))
  {
    Cidr.ValidateCidrIff(Strip(r.subnetLine));
  }

  /** The port scanner starts exactly when the stripped choice is "2". */
  lemma DispatchPortScanIff(r: Round)
    ensures Dispatch(r) == StartPortScan <==> Strip(r.choiceLine) == "2"
  {
  }

  /** Any stripped choice other than "1", "2" and "3" is reported as invalid,
      and those three never are. */
  lemma DispatchInvalidIff(r: Round)
    ensures Dispatch(r) == InvalidOption <==> Strip(r.choiceLine) !in {"1", "2", "3"}
  {
  }

  /** White space around the choice does not change the round. */
  lemma DispatchIgnoresPadding(lead: string, choice: string, trail: string, subnetLine: string)
    requires AllPySpace(lead) && AllPySpace(trail)
    requires choice == [] || (!IsPySpace(choice[0]) && !IsPySpace(choice[|choice| - 1]))
    ensures Dispatch(Round(lead + choice + trail, subnetLine)) == Dispatch(Round(choice, subnetLine))
  {
    StripPadded(lead, choice, trail);
    StripPadded([], choice, []);
    assert [] + choice + [] == choice;
  }

  /** A session exits at most once, and only in its last round; when it stops
      before the replies run out, it is because the user exited. */
  lemma {:induction false} SessionStopsAtExit(rounds: seq<Round>)
    ensures forall m | 0 <= m < |Session(rounds)| - 1 :: !Session(rounds)[m].Exit?
    ensures |Session(rounds)| < |rounds| ==> Session(rounds)[|Session(rounds)| - 1].Exit?
    ensures forall m | 0 <= m < |Session(rounds)| :: Session(rounds)[m] == Dispatch(rounds[m])
    decreases |rounds|
  {
    if rounds != [] && !Dispatch(rounds[0]).Exit? {
      var rest := Session(rounds[1..]);
      SessionStopsAtExit(rounds[1..]);
      assert Session(rounds) == [Dispatch(rounds[0])] + rest;
      assert forall m | 1 <= m < |Session(rounds)| :: Session(rounds)[m] == rest[m - 1];
    }
  }
}
