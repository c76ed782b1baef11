/**
 * The shopping-list model: the `shopping_lists` and `shopping_list_items`
 * tables as maps held by one object, and the statements the model runs on them
 * as methods. `deleteShoppingList` runs its two deletes in one transaction,
 * which either commits both or rolls back to the state before it began.
 */
module ShoppingLists {
  import opened Wrappers
  import opened Ids

  type ListId = nat
  type ItemId = nat
  type UserId = nat

  /** A row of `shopping_lists`; `None` is SQL `NULL`. */
  datatype ShoppingList = ShoppingList(userId: UserId, name: Option<string>, description: Option<string>)

  /** A row of `shopping_list_items`; `None` is SQL `NULL`. */
  datatype ListItemRow = ListItemRow(
    listId: ListId,
    productId: ProductId,
    quantity: Option<int>,
    notes: Option<string>,
    isChecked: Option<bool>)

  /** `quantity || 1`: `undefined`, `null` and `0` are falsy. */
  function QuantityOrDefault(quantity: Option<int>): (r: int)
    ensures r != 0
  {
    if quantity.Some? && quantity.value != 0 then quantity.value else 1
  }

  /** `notes || ""` */
  function NotesOrDefault(notes: Option<string>): string
  {
    if notes.Some? && notes.value != "" then notes.value else ""
  }

  /** `isChecked || false` */
  function CheckedOrDefault(isChecked: Option<bool>): bool
  {
    isChecked == Some(true)
  }

  /** The row `addItemToList` inserts: every column but the ids is defaulted, none is `NULL`. */
  function NewItem(listId: ListId, productId: ProductId, quantity: Option<int>, notes: Option<string>,
                   isChecked: Option<bool>): (r: ListItemRow)
    ensures r.listId == listId && r.productId == productId
    ensures r.quantity.Some? && r.notes.Some? && r.isChecked.Some?
  {
    ListItemRow(listId, productId, Some(QuantityOrDefault(quantity)), Some(NotesOrDefault(notes)),
                Some(CheckedOrDefault(isChecked)))
  }

  /** A falsy quantity is stored as 1, falsy notes as "" and a falsy `isChecked` as false; truthy values as given. */
  lemma NewItemDefaults(listId: ListId, productId: ProductId, quantity: Option<int>, notes: Option<string>,
                        isChecked: Option<bool>)
    ensures var r := NewItem(listId, productId, quantity, notes, isChecked);
      && (quantity == None || quantity == Some(0) ==> r.quantity == Some(1))
      && (quantity.Some? && quantity.value != 0 ==> r.quantity == quantity)
      && (notes == None || notes == Some("") ==> r.notes == Some(""))
      && (notes.Some? ==> r.notes == notes)
      && (isChecked != Some(true) <==> r.isChecked == Some(false))
      && (isChecked.Some? ==> r.isChecked == isChecked)
  {
    if isChecked.Some? {
      if isChecked.value {
        assert isChecked == Some(true);
      } else {
        assert isChecked == Some(false);
      }
    }
  }

  /** `shopping_list_items` after `DELETE ... WHERE list_id = $1`. */
  function WithoutListItems(items: map<ItemId, ListItemRow>, listId: ListId): (r: map<ItemId, ListItemRow>)
    ensures forall i :: i in r ==> i in items && r[i] == items[i] && r[i].listId != listId
  {
    map i | i in items && items[i].listId != listId :: items[i]
  }

  /** The delete removes the list's items, every one of them, and keeps every other row. */
  lemma WithoutListItemsSpec(items: map<ItemId, ListItemRow>, listId: ListId)
    ensures forall i :: i in items && items[i].listId != listId ==> i in WithoutListItems(items, listId)
    ensures forall i :: i in WithoutListItems(items, listId) ==> WithoutListItems(items, listId)[i].listId != listId
    ensures WithoutListItems(WithoutListItems(items, listId), listId) == WithoutListItems(items, listId)
  {
  }

  /**
   * Which statement of `deleteShoppingList`'s transaction fails, if any (a
   * query error, a lost connection); a failure stands for the error that
   * statement raises.
   */
  datatype DeleteFault = NoFault | ItemsDeleteFails | ListDeleteFails | CommitFails

  class Tables {
    var lists: map<ListId, ShoppingList>
    var items: map<ItemId, ListItemRow>
    /** Ids the database has not handed out yet. */
    var nextListId: nat
    var nextItemId: nat

    ghost predicate Valid()
      reads this
    {
      && (forall id :: id in lists ==> id < nextListId)
      && (forall id :: id in items ==> id < nextItemId)
    }

    constructor ()
      ensures Valid() && lists == map[] && items == map[]
    {
      lists, items := map[], map[];
      nextListId, nextItemId := 0, 0;
    }

    /** `createShoppingList`: insert a row with a new id. */
    method CreateShoppingList(userId: UserId, name: Option<string>, description: Option<string>)
      returns (id: ListId, row: ShoppingList)
      requires Valid()
      modifies this
      ensures Valid()
      ensures id !in old(lists) && row == ShoppingList(userId, name, description)
      ensures lists == old(lists)[id := row] && items == old(items)
    {
      id := nextListId;
      row := ShoppingList(userId, name, description);
      lists := lists[id := row];
      nextListId := nextListId + 1;
    }

    /** `updateShoppingList`: set name and description of an existing list; `None` when there is none. */
    method UpdateShoppingList(listId: ListId, name: Option<string>, description: Option<string>)
      returns (r: Option<ShoppingList>)
      requires Valid()
      modifies this
      ensures Valid()
      ensures listId !in old(lists) ==> r == None && lists == old(lists)
      ensures listId in old(lists) ==>
        && r == Some(old(lists)[listId].(name := name, description := description))
        && lists == old(lists)[listId := r.value]
      ensures items == old(items) && nextListId == old(nextListId) && nextItemId == old(nextItemId)
    {
      if listId in lists {
        var row := lists[listId].(name := name, description := description);
        lists := lists[listId := row];
        r := Some(row);
      } else {
        r := None;
      }
    }

    /**
     * `deleteShoppingList`: in one transaction, delete the list's items, then
     * the list, and answer whether a list was deleted. A failing statement or
     * commit rolls both deletes back, and its own error is rethrown.
     */
    method DeleteShoppingList(listId: ListId, fault: DeleteFault) returns (r: Result<bool, DeleteFault>)
      requires Valid()
      modifies this
      ensures Valid()
      ensures fault == NoFault ==>
        && r == Success(listId in old(lists))
        && lists == old(lists) - {listId}
        && items == WithoutListItems(old(items), listId)
      ensures fault != NoFault ==> r == Failure(fault) && lists == old(lists) && items == old(items)
      ensures nextListId == old(nextListId) && nextItemId == old(nextItemId)
    {
      // BEGIN
      var savedLists, savedItems := lists, items;
      if fault == ItemsDeleteFails {
        lists, items := savedLists, savedItems;
        return Failure(fault);
      }
      items := WithoutListItems(items, listId);
      if fault == ListDeleteFails {
        lists, items := savedLists, savedItems;
        return Failure(fault);
      }
      var deleted := listId in lists;
      lists := lists - {listId};
      if fault == CommitFails {
        lists, items := savedLists, savedItems;
        return Failure(fault);
      }
      // COMMIT
      r := Success(deleted);
    }

    /** `addItemToList`: insert an item row with a new id and the defaults of `NewItem`. */
    method AddItemToList(listId: ListId, productId: ProductId, quantity: Option<int>, notes: Option<string>,
                         isChecked: Option<bool>)
      returns (id: ItemId, row: ListItemRow)
      requires Valid()
      modifies this
      ensures Valid()
      ensures id !in old(items) && row == NewItem(listId, productId, quantity, notes, isChecked)
      ensures items == old(items)[id := row] && lists == old(lists)
    {
      id := nextItemId;
      row := NewItem(listId, productId, quantity, notes, isChecked);
      items := items[id := row];
      nextItemId := nextItemId + 1;
    }

    /** `updateListItem`: overwrite quantity, notes and `is_checked` exactly as given; `None` when there is no such item. */
    method UpdateListItem(itemId: ItemId, quantity: Option<int>, notes: Option<string>, isChecked: Option<bool>)
      returns (r: Option<ListItemRow>)
      requires Valid()
      modifies this
      ensures Valid()
      ensures itemId !in old(items) ==> r == None && items == old(items)
      ensures itemId in old(items) ==>
        && r == Some(old(items)[itemId].(quantity := quantity, notes := notes, isChecked := isChecked))
        && items == old(items)[itemId := r.value]
      ensures lists == old(lists) && nextListId == old(nextListId) && nextItemId == old(nextItemId)
    {
      if itemId in items {
        var row := items[itemId].(quantity := quantity, notes := notes, isChecked := isChecked);
        items := items[itemId := row];
        r := Some(row);
      } else {
        r := None;
      }
    }

    /** `removeListItem`: delete one item row and answer whether there was one. */
    method RemoveListItem(itemId: ItemId) returns (removed: bool)
      requires Valid()
      modifies this
      ensures Valid()
      ensures removed == (itemId in old(items))
      ensures items == old(items) - {itemId} && lists == old(lists)
      ensures nextListId == old(nextListId) && nextItemId == old(nextItemId)
    {
      removed := itemId in items;
      items := items - {itemId};
    }
  }
}
