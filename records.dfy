/**
 * One row of the risk-audit sheet as the risk matrix reads it, and the
 * information it keeps per acronym ("sigla").
 */
module RiskRecords {
  import opened Options

  /** A calendar month number, 1 (January) to 12 (December). */
  type Month = m: int | 1 <= m <= 12 witness 1

  /**
   * A row: `unit` is None when `Unidade` is empty (dropped by `dropna`);
   * `month` is None when `Mes` does not coerce to a number; the other three
   * are None when the sheet has no such column.
   */
  datatype Record = Record(
    unit: Option<string>,
    month: Option<int>,
    sigla: Option<string>,
    status: Option<string>,
    relatorio: Option<string>)

  /** The row's acronym; a sheet without a `Sigla` column gives "REL". */
  function SiglaOf(r: Record): (s: string)
    ensures r.sigla == None ==> s == "REL"
  {
    r.sigla.GetOr("REL")
  }

  /** The row's status; a sheet without a `Status` column gives "Sem Status". */
  function StatusOf(r: Record): (s: string)
    ensures r.status == None ==> s == "Sem Status"
  {
    r.status.GetOr("Sem Status")
  }

  /** The row's report name; a sheet without a `Relatorio` column gives "". */
  function RelatorioOf(r: Record): (s: string)
    ensures r.relatorio == None ==> s == []
  {
    r.relatorio.GetOr("")
  }

  /** What the acronym map remembers about the row that last carried an acronym. */
  datatype Info = Info(relatorio: string, status: string, unit: string, month: Month)

  /** One write into the acronym map: the acronym and the information stored under it. */
  datatype Entry = Entry(sigla: string, info: Info)

  /** Full Portuguese month names, as shown in the listing. */
  function MonthName(m: Month): string
  {
    match m
    case 1 => "Janeiro"
    case 2 => "Fevereiro"
    case 3 => "Março"
    case 4 => "Abril"
    case 5 => "Maio"
    case 6 => "Junho"
    case 7 => "Julho"
    case 8 => "Agosto"
    case 9 => "Setembro"
    case 10 => "Outubro"
    case 11 => "Novembro"
    case _ => "Dezembro"
  }
}
