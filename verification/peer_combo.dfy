/** `showPeerAddressesInGui`: rebuilds the peer combo box from the peer
    list and puts the previous selection back when its text is still there. */
module PeerCombo {
  import opened Common

  /** The combo box after a refresh: its items, and the index the refresh
      selected explicitly (`None` when it called no `setCurrentIndex`). */
  datatype ComboView = ComboView(items: seq<string>, restored: Option<nat>)

  /** `QComboBox::findText` with the default exact, case-sensitive match:
      the first index holding `text`, or -1. */
  function FindText(items: seq<string>, text: string): (index: int)
    ensures -1 <= index < |items|
    ensures index == -1 <==> text !in items
    ensures index != -1 ==> items[index] == text && text !in items[..index]
  {
    if |items| == 0 then -1
    else if items[0] == text then 0
    else
      var rest := FindText(items[1..], text);
      assert items == [items[0]] + items[1..];
      if rest == -1 then -1
      else
        assert items[..rest + 1] == [items[0]] + items[1..][..rest];
        rest + 1
  }

  /** Clears the box, adds every peer address in order, and re-selects the
      text that was current before, if some item equals it. */
  function ShowPeerAddresses(previousSelection: string, peers: seq<string>): (view: ComboView)
    ensures view.items == peers
    ensures view.restored.Some? <==> previousSelection in peers
    ensures view.restored.Some? ==>
              && view.restored.value < |peers|
              && peers[view.restored.value] == previousSelection
              && previousSelection !in peers[..view.restored.value]
  {
    var index := FindText(peers, previousSelection);
    if index != -1 then ComboView(peers, Some(index)) else ComboView(peers, None)
  }
}
