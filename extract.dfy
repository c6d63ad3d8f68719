/** `extract_watch_data` (src/watchfinder_scraper.py:133-167): reads one
    detail page into the raw record. The parsed HTML is abstracted to the
    handful of lookups the function performs on it. */
module Extract {
  import opened Wrappers
  import opened Text
  import opened Dicts
  import opened WatchRecords

  /** A `<meta>` tag `soup.find` returned: its `content` attribute, if set. */
  datatype Meta = Meta(content: Option<string>)

  /** A `<tr>` of the specification table: the texts of its `<td>` cells. */
  type Row = seq<string>

  /** The `<div id="specification-content">`: the rows of the `<table>`
      inside it, when there is one. */
  datatype SpecSection = SpecSection(table: Option<seq<Row>>)

  /** The results of the lookups of lines 135-148. A lookup that finds no
      element is `None`; a span is given by its text. */
  datatype DetailPage = DetailPage(
    modelMeta: Option<Meta>,
    mpnMeta: Option<Meta>,
    priceSpan: Option<string>,
    discountSpan: Option<string>,
    specSection: Option<SpecSection>)

  /** The exception the function lets escape when a lookup it dereferences
      found nothing (`None.get`, `None.find`, `None.find_all`). */
  datatype ExtractError = MissingModelMeta | MissingMpnMeta | MissingSpecSection | MissingSpecTable

  const NA := "N/A"

  /** `span.text.strip() if span else 'N/A'`. */
  function SpanText(span: Option<string>): string
  {
    if span.Some? then Strip(span.value) else NA
  }

  /** Lines 139-145: the regular price, or else the discounted one. */
  function SelectPrice(primary: Option<string>, discount: Option<string>): string
  {
    if SpanText(primary) == NA then SpanText(discount) else SpanText(primary)
  }

  /** Line 155: the stripped first cell with every `:` removed. */
  function SpecLabel(cell: string): string
  {
    Without(Strip(cell), {':'})
  }

  /** The (label, value) assignments of the loop of lines 152-157, in order:
      one per row with exactly two cells. */
  function SpecPairs(rows: seq<Row>): seq<(string, string)>
  {
    if rows == [] then []
    else
      var last := rows[|rows| - 1];
      SpecPairs(rows[..|rows| - 1]) + (if |last| == 2 then [(SpecLabel(last[0]), Strip(last[1]))] else [])
  }

  /** `specifications` after the loop. */
  function SpecDict(rows: seq<Row>): Dict
  {
    PutAll([], SpecPairs(rows))
  }

  /** What `extract_watch_data` returns, or the error it raises, in the order
      the lookups run. */
  function ExtractSpec(page: DetailPage): (r: Result<RawRecord, ExtractError>)
    ensures r.Err? <==>
              page.modelMeta.None? || page.mpnMeta.None? || page.specSection.None? || page.specSection.value.table.None?
    ensures r.Err? && page.modelMeta.None? ==> r.error == MissingModelMeta
    ensures r.Err? && page.modelMeta.Some? && page.mpnMeta.None? ==> r.error == MissingMpnMeta
    ensures r.Err? && page.modelMeta.Some? && page.mpnMeta.Some? ==>
              r.error == if page.specSection.None? then MissingSpecSection else MissingSpecTable
    ensures r.Ok? ==> r.value.model == page.modelMeta.value.content.GetOr(NA)
    ensures r.Ok? ==> r.value.referenceCode == page.mpnMeta.value.content.GetOr(NA)
  {
    if page.modelMeta.None? then Err(MissingModelMeta)
    else if page.mpnMeta.None? then Err(MissingMpnMeta)
    else if page.specSection.None? then Err(MissingSpecSection)
    else if page.specSection.value.table.None? then Err(MissingSpecTable)
    else
      Ok(RawRecord(
        page.modelMeta.value.content.GetOr(NA),
        page.mpnMeta.value.content.GetOr(NA),
        SelectPrice(page.priceSpan, page.discountSpan),
        SpecDict(page.specSection.value.table.value)))
  }

  /** `extract_watch_data`: builds a fresh record object, filling the
      specifications row by row. */
  method ExtractWatchData(page: DetailPage) returns (res: Result<WatchRecord, ExtractError>)
    ensures res.Err? <==> ExtractSpec(page).Err?
    ensures res.Err? ==> res.error == ExtractSpec(page).error
    ensures res.Ok? ==> fresh(res.value) && res.value.Value() == ExtractSpec(page).value
  {
    if page.modelMeta.None? {
      return Err(MissingModelMeta);
    }
    var model := page.modelMeta.value.content.GetOr(NA);
    if page.mpnMeta.None? {
      return Err(MissingMpnMeta);
    }
    var referenceCode := page.mpnMeta.value.content.GetOr(NA);

    var price := if page.priceSpan.Some? then Strip(page.priceSpan.value) else NA;
    if price == NA {
      price := if page.discountSpan.Some? then Strip(page.discountSpan.value) else NA;
    }

    if page.specSection.None? {
      return Err(MissingSpecSection);
    }
    if page.specSection.value.table.None? {
      return Err(MissingSpecTable);
    }
    var specifications := ExtractSpecifications(page.specSection.value.table.value);
    var w := new WatchRecord(RawRecord(model, referenceCode, price, specifications));
    res := Ok(w);
  }

  /** Lines 149-157: the specification dict, filled row by row. */
  method ExtractSpecifications(rows: seq<Row>) returns (specifications: Dict)
    ensures specifications == SpecDict(rows)
  {
    specifications := [];
    for i := 0 to |rows|
      invariant specifications == SpecDict(rows[..i])
    {
      SpecDictStep(rows, i);
      var cols := rows[i];
      if |cols| == 2 {
        var name := SpecLabel(cols[0]);
        var value := Strip(cols[1]);
        specifications := Put(specifications, name, value);
      }
    }
    assert rows[..|rows|] == rows;
  }

  lemma SpecDictStep(rows: seq<Row>, i: nat)
    requires i < |rows|
    ensures SpecDict(rows[..i + 1]) ==
              if |rows[i]| == 2 then Put(SpecDict(rows[..i]), SpecLabel(rows[i][0]), Strip(rows[i][1])) else SpecDict(rows[..i])
  {
    assert rows[..i + 1] == rows[..i] + [rows[i]];
    SpecDictSnoc(rows[..i], rows[i]);
  }

  lemma SpecDictSnoc(rows: seq<Row>, row: Row)
    ensures SpecDict(rows + [row]) ==
              if |row| == 2 then Put(SpecDict(rows), SpecLabel(row[0]), Strip(row[1])) else SpecDict(rows)
  {
    assert (rows + [row])[..|rows|] == rows;
    if |row| == 2 {
      PutAllSnoc([], SpecPairs(rows), (SpecLabel(row[0]), Strip(row[1])));
    } else {
      assert SpecPairs(rows + [row]) == SpecPairs(rows) + [];
      assert SpecPairs(rows) + [] == SpecPairs(rows);
    }
  }

  // ---------------------------------------------------------------------------
  // Properties

  /** The price is the regular price unless that is missing or reads `N/A`,
      in which case it is the discounted price, and `N/A` when neither gives
      one. Either way it has no whitespace at its ends. */
  lemma SelectPriceSpec(primary: Option<string>, discount: Option<string>)
    ensures var p := SelectPrice(primary, discount);
      && (p == NA <==> SpanText(primary) == NA && SpanText(discount) == NA)
      && (primary.Some? && Strip(primary.value) != NA ==> p == Strip(primary.value))
      && (p != NA && (primary.None? || Strip(primary.value) == NA) ==> discount.Some? && p == Strip(discount.value))
      && Trimmed(p)
  {
    assert Trimmed(NA) by {
      assert NA[0] == 'N' && NA[|NA| - 1] == 'A';
    }
  }

  /** With neither price span the cleaned price is `N/A`. */
  lemma NoSpanPrice(primary: Option<string>, discount: Option<string>)
    requires primary.None? && discount.None?
    ensures CleanPrice(SelectPrice(primary, discount)) == NA
  {
    CleanPriceNA();
  }

  /** A regular price of `$5,200` cleans to `5200`. */
  lemma DollarSpanPrice(primary: Option<string>, discount: Option<string>)
    requires primary == Some("$5,200")
    ensures CleanPrice(SelectPrice(primary, discount)) == "5200"
  {
    StripOfTrimmed("$5,200");
    CleanPriceDollars();
  }

  /** A row that does not have exactly two cells is ignored. */
  lemma IgnoresOtherRows(rows: seq<Row>, row: Row)
    requires |row| != 2
    ensures SpecDict(rows + [row]) == SpecDict(rows)
  {
    SpecDictSnoc(rows, row);
  }

  /** Row `row` assigns label `k`. */
  predicate Assigns(row: Row, k: string)
  {
    |row| == 2 && SpecLabel(row[0]) == k
  }

  lemma SpecPairsSnoc(rows: seq<Row>)
    requires rows != []
    ensures var last := rows[|rows| - 1];
      SpecPairs(rows) == SpecPairs(rows[..|rows| - 1]) + (if |last| == 2 then [(SpecLabel(last[0]), Strip(last[1]))] else [])
  {
  }

  /** No pair for `k` exactly when no row assigns `k`. */
  lemma {:induction false} SpecPairsNone(rows: seq<Row>, k: string)
    ensures LastValue(SpecPairs(rows), k).None? <==> forall i :: 0 <= i < |rows| ==> !Assigns(rows[i], k)
  {
    if rows != [] {
      var init, last := rows[..|rows| - 1], rows[|rows| - 1];
      var ps := SpecPairs(init);
      assert LastValue(SpecPairs(rows), k).None? <==> LastValue(ps, k).None? && !Assigns(last, k) by {
        SpecPairsSnoc(rows);
        if |last| == 2 {
          var p := (SpecLabel(last[0]), Strip(last[1]));
          assert (ps + [p])[..|ps|] == ps;
        } else {
          assert ps + [] == ps;
        }
      }
      SpecPairsNone(init, k);
      assert forall i :: 0 <= i < |init| ==> init[i] == rows[i];
    }
  }

  /** The pair for `k` that counts is the one of the last row assigning `k`. */
  lemma {:induction false} SpecPairsLast(rows: seq<Row>, k: string, j: nat)
    requires j < |rows| && Assigns(rows[j], k)
    requires forall i :: j < i < |rows| ==> !Assigns(rows[i], k)
    ensures LastValue(SpecPairs(rows), k) == Some(Strip(rows[j][1]))
  {
    var init, last := rows[..|rows| - 1], rows[|rows| - 1];
    SpecPairsSnoc(rows);
    var ps := SpecPairs(init);
    if j == |rows| - 1 {
      var p := (SpecLabel(last[0]), Strip(last[1]));
      assert (ps + [p])[..|ps|] == ps;
    } else {
      SpecPairsLast(init, k, j);
      if |last| == 2 {
        var p := (SpecLabel(last[0]), Strip(last[1]));
        assert (ps + [p])[..|ps|] == ps;
      } else {
        assert ps + [] == ps;
      }
    }
  }

  /** A label is present exactly when some two-cell row carries it, and then
      it holds the value of the LAST such row. */
  lemma SpecDictGet(rows: seq<Row>, k: string)
    ensures Get(SpecDict(rows), k).None? <==> forall i :: 0 <= i < |rows| ==> !Assigns(rows[i], k)
    ensures forall j :: 0 <= j < |rows| && Assigns(rows[j], k) && (forall i :: j < i < |rows| ==> !Assigns(rows[i], k)) ==>
                          Get(SpecDict(rows), k) == Some(Strip(rows[j][1]))
  {
    PutAllGet([], SpecPairs(rows), k);
    SpecPairsNone(rows, k);
    forall j | 0 <= j < |rows| && Assigns(rows[j], k) && (forall i :: j < i < |rows| ==> !Assigns(rows[i], k))
      ensures Get(SpecDict(rows), k) == Some(Strip(rows[j][1]))
    {
      SpecPairsLast(rows, k, j);
    }
  }

  /** The specifications form a dict: no label twice. */
  lemma SpecDictDistinct(rows: seq<Row>)
    ensures DistinctKeys(SpecDict(rows))
  {
    PutAllDistinct([], SpecPairs(rows));
  }

  /** No label contains a colon, wherever it stood in the cell. */
  lemma LabelsHaveNoColon(rows: seq<Row>, k: string)
    requires k in Keys(SpecDict(rows))
    ensures ':' !in k
  {
    KeysMembership(SpecDict(rows), k);
    SpecDictGet(rows, k);
    var i :| 0 <= i < |rows| && Assigns(rows[i], k);
    WithoutMembers(Strip(rows[i][0]), {':'});
  }

  /** A page without the specification block raises instead of yielding a
      record with defaults. */
  lemma MissingSectionRaises(page: DetailPage)
    requires page.modelMeta.Some? && page.mpnMeta.Some? && page.specSection.None?
    ensures ExtractSpec(page) == Err(MissingSpecSection)
  {
  }
}
