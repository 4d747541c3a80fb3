/** The menu server: the object that answers `ShowMenu` requests and reports the user's
    choice through the `OnSelect` and `OnCancel` signals. Its methods are proved against
    the functions of module `Session`. */
module Server {
  import opened MenuTree
  import opened Session

  class Server {
    /** Id of the menu on screen; 0 while no menu is shown. */
    var currentID: int
    /** Id the next successful request will receive. */
    var nextID: int
    /** The signals emitted so far, oldest first. */
    var signals: seq<Event>

    /** The server's state as a value. */
    function State(): (s: SessionState)
      reads this
      ensures s.currentID == currentID && s.nextID == nextID && s.signals == signals
    {
      SessionState(currentID, nextID, signals)
    }

    ghost predicate Valid()
      reads this
    {
      Invariant(State())
    }

    /** Starts idle, with the first id still to hand out being 1. */
    constructor ()
      ensures Valid()
      ensures State() == Initial()
      ensures currentID == 0 && nextID == 1 && signals == []
    {
      nextID := 1;
      currentID := 0;
      signals := [];
    }

    /** Shows the menu `parsed` and returns its session id, or returns -1 when a menu is
        already shown, the description did not decode (`parsed` is `None`) or the widget
        refused to show it (`shown` is false); a refusal changes nothing. */
    method ShowMenu(parsed: Option<MenuNode>, shown: bool) returns (id: int)
      requires Valid()
      modifies this
      ensures Valid()
      ensures Reply(State(), id) == Session.ShowMenu(old(State()), parsed, shown)
      ensures id == -1 <==> old(currentID) > 0 || parsed.None? || !shown
      ensures id == -1 ==> unchanged(this)
      ensures id != -1 ==> id == old(nextID) && id >= 1 && currentID == id && nextID == id + 1 && signals == old(signals)
    {
      if currentID > 0 {
        return -1;
      }
      if parsed.None? {
        return -1;
      }
      if !shown {
        return -1;
      }
      currentID := nextID;
      nextID := nextID + 1;
      id := currentID;
    }

    /** The widget reports that the user picked `item`: signal it with the current id,
        then return to idle. */
    method OnSelect(item: string)
      requires Valid()
      modifies this
      ensures Valid()
      ensures State() == Select(old(State()), item)
      ensures signals == old(signals) + [Event.OnSelect(old(currentID), item)]
      ensures currentID == 0 && nextID == old(nextID)
    {
      signals := signals + [Event.OnSelect(currentID, item)];
      currentID := 0;
    }

    /** The widget reports that the user dismissed the menu: signal it with the current
        id, then return to idle. */
    method OnCancel()
      requires Valid()
      modifies this
      ensures Valid()
      ensures State() == Cancel(old(State()))
      ensures signals == old(signals) + [Event.OnCancel(old(currentID))]
      ensures currentID == 0 && nextID == old(nextID)
    {
      signals := signals + [Event.OnCancel(currentID)];
      currentID := 0;
    }
  }

  /** A client of the class: the first request gets id 1, a second request while that
      menu is on screen is refused, the selection is reported with id 1, and the next
      request gets id 2. */
  method ExampleClient(root: MenuNode, other: MenuNode)
  {
    var server := new Server();
    var first := server.ShowMenu(Some(root), true);
    assert first == 1;
    var busy := server.ShowMenu(Some(other), true);
    assert busy == -1;
    server.OnSelect("A");
    assert server.signals == [OnSelect(1, "A")];
    var second := server.ShowMenu(Some(other), true);
    assert second == 2;
    var broken := server.ShowMenu(None, true);
    assert broken == -1 && server.currentID == 2;
  }
}
