/**
 * The row construction of `exportToExcel`: the backend's aggregated result projected
 * into the three row lists handed to `XLSX.utils.json_to_sheet`.
 */
module SpreadsheetExport {
  import opened Wrappers

  /** `Votos`: a tally for the two candidates; a missing, null or NaN count is None. */
  datatype Votos = Votos(a: Option<int>, b: Option<int>)

  /**
   * `RespostaBackend`. The two tally records are kept as their `Object.entries`
   * lists, so the order the page sees is the order of these sequences.
   */
  datatype RespostaBackend = RespostaBackend(
    votosPorMunicipio: seq<(string, Votos)>,
    votosPorEstado: seq<(string, Votos)>,
    vencedorNacional: string,
    porcentagemVencedorNacional: real,
    segundoColocado: string,
    porcentagemSegundoVencedorNacional: real)

  /**
   * A row of the municipality sheet `{Município, Votos_B, Votos_A}` or of the state
   * sheet `{Estado, Votos_B, Votos_A}`; `nome` is the first column.
   */
  datatype TallyRow = TallyRow(nome: string, votosB: int, votosA: int)

  /** The single row of the national sheet. */
  datatype NacionalRow = NacionalRow(
    vencedorNacional: string,
    porcentagemVencedorNacional: real,
    segundoColocado: string,
    porcentagemSegundoColocado: real)

  /** The rows of the three sheets "Votos por Município", "Votos por Estado" and "Resultado Nacional". */
  datatype Sheets = Sheets(municipios: seq<TallyRow>, estados: seq<TallyRow>, nacional: seq<NacionalRow>)

  /** `votos.X || 0`: a truthy count is kept, undefined, null, NaN and 0 become 0. */
  function VotesOrZero(v: Option<int>): (n: int)
    ensures v.Some? && v.value != 0 ==> n == v.value
    ensures n == 0 <==> v.None? || v.value == 0
  {
    match v
    case Some(x) => x
    case None => 0
  }

  /** `Object.entries(votos).map(([nome, votos]) => ({nome, Votos_B: votos.B || 0, Votos_A: votos.A || 0}))`. */
  function TallyRows(entries: seq<(string, Votos)>): (rows: seq<TallyRow>)
    ensures |rows| == |entries|
    ensures forall i :: 0 <= i < |entries| ==>
      rows[i].nome == entries[i].0
      && rows[i].votosA == VotesOrZero(entries[i].1.a)
      && rows[i].votosB == VotesOrZero(entries[i].1.b)
  {
    if entries == [] then []
    else
      var (nome, votos) := entries[0];
      [TallyRow(nome, VotesOrZero(votos.b), VotesOrZero(votos.a))] + TallyRows(entries[1..])
  }

  /** The three row lists `exportToExcel` builds from one backend response. */
  function ExportToExcel(data: RespostaBackend): (s: Sheets)
    ensures s.municipios == TallyRows(data.votosPorMunicipio)
    ensures s.estados == TallyRows(data.votosPorEstado)
    ensures |s.nacional| == 1
    ensures s.nacional[0].vencedorNacional == data.vencedorNacional
    ensures s.nacional[0].porcentagemVencedorNacional == data.porcentagemVencedorNacional
    ensures s.nacional[0].segundoColocado == data.segundoColocado
    ensures s.nacional[0].porcentagemSegundoColocado == data.porcentagemSegundoVencedorNacional
  {
    Sheets(
      TallyRows(data.votosPorMunicipio),
      TallyRows(data.votosPorEstado),
      [NacionalRow(data.vencedorNacional, data.porcentagemVencedorNacional,
                   data.segundoColocado, data.porcentagemSegundoVencedorNacional)])
  }

  // ---------------------------------------------------------------------------
  // Reading the sheets back
  // ---------------------------------------------------------------------------

  /** A tally as the sheet shows it: every count present, missing ones as 0. */
  function Defaulted(v: Votos): Votos {
    Votos(Some(VotesOrZero(v.a)), Some(VotesOrZero(v.b)))
  }

  /** A tally whose two counts are both present. */
  predicate Complete(v: Votos) {
    v.a.Some? && v.b.Some?
  }

  /** The entries a list of sheet rows stands for. */
  function Entries(rows: seq<TallyRow>): (es: seq<(string, Votos)>)
    ensures |es| == |rows|
  {
    if rows == [] then [] else [(rows[0].nome, Votos(Some(rows[0].votosA), Some(rows[0].votosB)))] + Entries(rows[1..])
  }

  /**
   * Reading the rows back gives the input entries, in the input order, with each
   * tally defaulted; entries whose tallies are complete come back unchanged.
   */
  lemma {:induction false} TallyRowsRoundTrip(es: seq<(string, Votos)>)
    ensures |Entries(TallyRows(es))| == |es|
    ensures forall i :: 0 <= i < |es| ==>
      Entries(TallyRows(es))[i] == (es[i].0, Defaulted(es[i].1))
    ensures (forall i :: 0 <= i < |es| ==> Complete(es[i].1)) ==> Entries(TallyRows(es)) == es
  {
    if es != [] {
      TallyRowsRoundTrip(es[1..]);
      var rows := TallyRows(es);
      assert rows[1..] == TallyRows(es[1..]);
      assert Entries(rows)[1..] == Entries(TallyRows(es[1..]));
      forall i | 1 <= i < |es| ensures Entries(rows)[i] == (es[i].0, Defaulted(es[i].1)) {
        assert Entries(rows)[i] == Entries(TallyRows(es[1..]))[i - 1];
        assert es[1..][i - 1] == es[i];
      }
    }
  }

  /** Every list of sheet rows is produced by exactly the entries it stands for. */
  lemma {:induction false} RowsFromTheirEntries(rows: seq<TallyRow>)
    ensures TallyRows(Entries(rows)) == rows
  {
    if rows != [] {
      RowsFromTheirEntries(rows[1..]);
      assert Entries(rows)[1..] == Entries(rows[1..]);
    }
  }

  /** Filling in the missing counts beforehand changes no row. */
  lemma TallyRowsIgnoreDefaulting(es: seq<(string, Votos)>)
    ensures TallyRows(seq(|es|, i requires 0 <= i < |es| => (es[i].0, Defaulted(es[i].1)))) == TallyRows(es)
  {
    var ds := seq(|es|, i requires 0 <= i < |es| => (es[i].0, Defaulted(es[i].1)));
    assert |TallyRows(ds)| == |TallyRows(es)|;
    forall i | 0 <= i < |es| ensures TallyRows(ds)[i] == TallyRows(es)[i] {
    }
  }
}
