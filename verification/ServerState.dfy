/** Whose turn it is in the ceremony, and until when. */
module ServerState {

  /** The three persisted numbers. Times are seconds, as reals. */
  datatype Turn = Turn(index: int, total: int, deadline: real) {
    predicate HaveAll() {
      total <= index
    }

    function Next(nextDeadline: real): Turn {
      var t := this.(index := index + 1);
      t.(deadline := if t.HaveAll() then 0.0 else nextDeadline)
    }

    /** The current contributor's slot has run out by time `now`. */
    predicate Expired(now: real) {
      0.0 < deadline <= now
    }
  }

  class ServerState {
    var nextContributorIndex: int
    const numContributors: int
    var nextContributorDeadline: real

    function View(): Turn
      reads this
    {
      Turn(nextContributorIndex, numContributors, nextContributorDeadline)
    }

    constructor (turn: Turn)
      requires turn.total != 0
      ensures View() == turn
    {
      nextContributorIndex, numContributors, nextContributorDeadline := turn.index, turn.total, turn.deadline;
    }

    predicate HaveAllContributions()
      reads this
    {
      numContributors <= nextContributorIndex
    }

    /** False when the source's assertion fails; nothing changes then. */
    method ReceivedContribution(nextDeadline: real) returns (ok: bool)
      modifies this
      ensures ok <==> old(nextContributorIndex) < numContributors
      ensures View() == if ok then old(View()).Next(nextDeadline) else old(View())
    {
      if HaveAllContributions() {
        return false;
      }
      NextContributor(nextDeadline);
      return true;
    }

    method Update(now: real, interval: real) returns (moved: bool)
      modifies this
      ensures moved <==> 0.0 < old(nextContributorDeadline) <= now
      ensures View() == if moved then old(View()).Next(now + interval) else old(View())
    {
      if nextContributorDeadline <= 0.0 || now < nextContributorDeadline {
        return false;
      }
      NextContributor(now + interval);
      return true;
    }

    method NextContributor(nextDeadline: real)
      modifies this
      ensures View() == old(View()).Next(nextDeadline)
      ensures nextContributorIndex == old(nextContributorIndex) + 1
      ensures nextContributorDeadline == if nextContributorIndex >= numContributors then 0.0 else nextDeadline
    {
      nextContributorIndex := nextContributorIndex + 1;
      if HaveAllContributions() {
        nextContributorDeadline := 0.0;
      } else {
        nextContributorDeadline := nextDeadline;
      }
    }
  }
}
