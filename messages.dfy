/** The messages the views and the dispatcher exchange, and the commands an
    update returns. A key press is known by its `msg.String()` name ("up", "g",
    "ctrl+w", or the typed character itself). */
module Messages {

  datatype Msg =
    | Key(name: string)
    | WindowSize(width: int, height: int)
    | SwitchToTableList
    | SwitchToTableListClear
    | SwitchToTableData(tableIndex: int)
    | SwitchToRowDetail(rowIndex: int)
    | SwitchToRowDetailFromQuery(rowIndex: int)
    | SwitchToEditCell(rowIndex: int, colIndex: int)
    | SwitchToQuery
    | ReturnToQuery
    | RefreshData
    | UpdateCellRequest(rowIndex: int, colIndex: int, value: string)
    | QueryCompleted(results: seq<seq<string>>, columns: seq<string>, failed: bool)
    | ToggleHelp
    /** Anything else, such as cursor-blink ticks. */
    | Other

  /** What an update asks the runtime to do next: nothing, deliver a message,
      quit, suspend, run a query in the background (its completion comes back
      as `QueryCompleted`), or nothing ever again because Go panicked. */
  datatype Cmd = NoCmd | Emit(msg: Msg) | Quit | Suspend | ExecuteQuery(query: string) | Crash
}
