/**
 * The state of the table component and the handlers that update it: the
 * record list, the row picked for editing and whether the add/edit dialog is
 * open. Each handler is a method; the list transforms it applies are the
 * functions of module Records.
 *
 * Two inputs of the component are not computed here: the outcome of the
 * form's validation, which the dialog's submit handler receives as a
 * `Validation` value, and the clock reading that becomes the key of an added
 * row, which it receives as `now`.
 */
module TableState {
  import opened Records

  /** What the form's validation yields: the submitted values, or a rejection. */
  datatype Validation = Passed(values: FormValues) | Rejected

  /** The dialog as a three-state machine. */
  datatype Mode = Closed | AddOpen | EditOpen(record: Rec)

  class CustomTable {
    var records: seq<Rec>
    var selectedRecord: Option<Rec>
    var isModalOpen: bool

    /** The dialog's state as the user sees it; the selection outlives a closed dialog. */
    function DialogMode(): (m: Mode)
      reads this
      ensures m == Closed <==> !isModalOpen
      ensures m == AddOpen <==> isModalOpen && selectedRecord == None
      ensures m.EditOpen? ==> selectedRecord == Some(m.record)
    {
      if !isModalOpen then Closed
      else match selectedRecord
        case None => AddOpen
        case Some(r) => EditOpen(r)
    }

    /** The initial state: no rows, nothing selected, dialog closed. */
    constructor ()
      ensures records == [] && selectedRecord == None && !isModalOpen
      ensures DialogMode() == Closed
    {
      records := [];
      selectedRecord := None;
      isModalOpen := false;
    }

    /** The "add" button: clear the selection and open the dialog. */
    method ShowAddModal()
      modifies this
      ensures DialogMode() == AddOpen
      ensures selectedRecord == None && isModalOpen
      ensures records == old(records)
    {
      selectedRecord := None;
      isModalOpen := true;
    }

    /** A row's edit button: select that row and open the dialog. */
    method ShowEditModal(record: Rec)
      modifies this
      ensures DialogMode() == EditOpen(record)
      ensures selectedRecord == Some(record) && isModalOpen
      ensures records == old(records)
    {
      selectedRecord := Some(record);
      isModalOpen := true;
    }

    /** A row's confirmed delete: drop every row with that key. */
    method DeleteRecord(key: Key)
      modifies this
      ensures records == Delete(old(records), key)
      ensures key !in Keys(records)
      ensures forall x :: x in records <==> x in old(records) && x.key != key
      ensures old(UniqueKeys(records)) ==> UniqueKeys(records)
      ensures selectedRecord == old(selectedRecord) && isModalOpen == old(isModalOpen)
    {
      if UniqueKeys(records) {
        DeleteKeepsUnique(records, key);
      }
      records := Delete(records, key);
    }

    /** The dialog's cancel: close it, leaving the rows and the selection alone. */
    method CancelModal()
      modifies this
      ensures DialogMode() == Closed
      ensures records == old(records) && selectedRecord == old(selectedRecord)
    {
      isModalOpen := false;
    }

    /**
     * The dialog's OK. On a rejected validation nothing changes. Otherwise the
     * selected row (by key) gets the submitted values when there is a
     * selection, a new row keyed `now` is appended when there is not, and the
     * dialog closes.
     */
    method HandleModalSubmit(outcome: Validation, now: Key)
      modifies this
      ensures outcome == Rejected ==>
        records == old(records) && isModalOpen == old(isModalOpen)
      ensures outcome.Passed? && old(selectedRecord).Some? ==>
        records == Edit(old(records), old(selectedRecord).value.key, outcome.values)
      ensures outcome.Passed? && old(selectedRecord).None? ==>
        records == Add(old(records), now, outcome.values)
      ensures outcome.Passed? ==> DialogMode() == Closed
      ensures selectedRecord == old(selectedRecord)
      ensures |records| == |old(records)| + (if outcome.Passed? && selectedRecord.None? then 1 else 0)
      ensures old(UniqueKeys(records)) && (old(selectedRecord).None? ==> now !in old(Keys(records))) ==>
        UniqueKeys(records)
    {
      match outcome
      case Rejected =>
      case Passed(values) =>
        match selectedRecord {
          case Some(selected) =>
            EditKeepsUnique(records, selected.key, values);
            records := Edit(records, selected.key, values);
          case None =>
            AddKeepsUnique(records, now, values);
            records := Add(records, now, values);
        }
        isModalOpen := false;
    }
  }

  /**
   * One editing session: add Alice (40) while the clock reads `now`, edit her
   * to Alicia (41), then delete her key. The handlers' contracts alone fix
   * every intermediate list.
   */
  method AddEditDeleteSession(now: Key) returns (afterAdd: seq<Rec>, afterEdit: seq<Rec>, afterDelete: seq<Rec>)
    ensures afterAdd == [Rec(now, "Alice", 40)]
    ensures afterEdit == [Rec(now, "Alicia", 41)]
    ensures afterDelete == []
  {
    var table := new CustomTable();
    table.ShowAddModal();
    table.HandleModalSubmit(Passed(FormValues("Alice", 40)), now);
    afterAdd := table.records;
    table.ShowEditModal(table.records[0]);
    table.HandleModalSubmit(Passed(FormValues("Alicia", 41)), now + 1);
    EditAt(afterAdd, now, FormValues("Alicia", 41), 0);
    afterEdit := table.records;
    table.DeleteRecord(now);
    afterDelete := table.records;
    assert Rec(now, "Alicia", 41) !in afterDelete;
  }
}
