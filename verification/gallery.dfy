/**
 * `IDCardGallery`: the list of issued cards, the three-way photo filter, the
 * 3-column grid the cards are placed in, the statistics line and the
 * generation of the cards that are still missing.
 */
module Gallery {
  import opened Wrappers
  import opened Lists
  import opened Schema
  import opened Database

  /** Cards per grid row (`max_cols`). */
  const Columns: nat := 3

  /** The entries of the filter combo box. */
  const AllCards: string := "All ID Cards"
  const WithPhotos: string := "With Photos"
  const WithoutPhotos: string := "Without Photos"

  function HasPhoto(): CardInfo -> bool {
    (c: CardInfo) => c.hasPhoto
  }

  function NoPhoto(): CardInfo -> bool {
    (c: CardInfo) => !c.hasPhoto
  }

  /**
   * `filter_cards`: "With Photos" keeps exactly the cards with a photo,
   * "Without Photos" exactly those without, and any other text keeps the list.
   */
  function FilterCards(cards: seq<CardInfo>, filterText: string): (r: seq<CardInfo>)
    ensures |r| <= |cards|
    ensures filterText == WithPhotos ==> forall i :: 0 <= i < |r| ==> r[i].hasPhoto
    ensures filterText == WithoutPhotos ==> forall i :: 0 <= i < |r| ==> !r[i].hasPhoto
    ensures filterText != WithPhotos && filterText != WithoutPhotos ==> r == cards
  {
    if filterText == WithPhotos then Filter(cards, HasPhoto())
    else if filterText == WithoutPhotos then Filter(cards, NoPhoto())
    else cards
  }

  /** "With Photos" keeps exactly the cards with a photo and "Without Photos" exactly those without. */
  lemma FilterCardsSelects(cards: seq<CardInfo>, c: CardInfo)
    ensures c in FilterCards(cards, WithPhotos) <==> c in cards && c.hasPhoto
    ensures c in FilterCards(cards, WithoutPhotos) <==> c in cards && !c.hasPhoto
  {
  }

  /** Each card keeps its multiplicity under the filter that accepts it and disappears under the other. */
  lemma FilterCardsMultiplicity(cards: seq<CardInfo>, c: CardInfo)
    ensures multiset(FilterCards(cards, WithPhotos))[c] == if c.hasPhoto then multiset(cards)[c] else 0
    ensures multiset(FilterCards(cards, WithoutPhotos))[c] == if c.hasPhoto then 0 else multiset(cards)[c]
  {
    FilterMultiset(cards, HasPhoto());
    FilterMultiset(cards, NoPhoto());
  }

  /** The two photo filters split the list: every card lands in exactly one of them. */
  lemma FilterCardsPartition(cards: seq<CardInfo>)
    ensures multiset(FilterCards(cards, WithPhotos)) + multiset(FilterCards(cards, WithoutPhotos)) == multiset(cards)
    ensures |FilterCards(cards, WithPhotos)| + |FilterCards(cards, WithoutPhotos)| == |cards|
  {
    FilterPartition(cards, HasPhoto(), NoPhoto());
  }

  /** Filtering keeps the gallery's order: it distributes over concatenation, for every filter text. */
  lemma FilterCardsKeepsOrder(a: seq<CardInfo>, b: seq<CardInfo>, filterText: string)
    ensures FilterCards(a + b, filterText) == FilterCards(a, filterText) + FilterCards(b, filterText)
  {
    FilterConcat(a, b, HasPhoto());
    FilterConcat(a, b, NoPhoto());
  }

  /** Choosing the same photo filter twice changes nothing the second time. */
  lemma FilterCardsIdempotent(cards: seq<CardInfo>, filterText: string)
    ensures FilterCards(FilterCards(cards, filterText), filterText) == FilterCards(cards, filterText)
  {
    if filterText == WithPhotos {
      FilterAll(FilterCards(cards, filterText), HasPhoto());
    } else if filterText == WithoutPhotos {
      FilterAll(FilterCards(cards, filterText), NoPhoto());
    }
  }

  /** A card widget added to the grid layout at a cell. */
  datatype Placement = Placement(card: CardInfo, row: nat, col: nat)

  /** The k-th shown card sits in row `k / 3`, column `k % 3`. */
  ghost predicate GridLayout(placed: seq<Placement>, shown: seq<CardInfo>) {
    |placed| == |shown| &&
    forall k :: 0 <= k < |placed| ==> placed[k] == Placement(shown[k], k / Columns, k % Columns)
  }

  /** In the grid every column is below 3, no two cards share a cell, and cards follow row-major order. */
  lemma GridCellsDistinct(placed: seq<Placement>, shown: seq<CardInfo>, j: int, k: int)
    requires GridLayout(placed, shown) && 0 <= j < k < |placed|
    ensures placed[j].col < Columns && placed[k].col < Columns
    ensures placed[j].row < placed[k].row || (placed[j].row == placed[k].row && placed[j].col < placed[k].col)
  {
  }

  /** The row given a stretch after placing `n` cards: one past the row the placement loop ended on. */
  function StretchRow(n: nat): nat {
    n / Columns + 1
  }

  /** The stretched row lies below every placed card. */
  lemma StretchBelowCards(placed: seq<Placement>, shown: seq<CardInfo>, k: int)
    requires GridLayout(placed, shown) && 0 <= k < |placed|
    ensures placed[k].row < StretchRow(|shown|)
  {
  }

  /** Advancing the column, and wrapping to the next row after the third, moves from cell `k` to cell `k + 1`. */
  lemma NextCell(k: nat)
    ensures k % Columns + 1 < Columns ==> (k + 1) / Columns == k / Columns && (k + 1) % Columns == k % Columns + 1
    ensures k % Columns + 1 >= Columns ==> (k + 1) / Columns == k / Columns + 1 && (k + 1) % Columns == 0
  {
  }

  /** The statistics line: shown, total, with photos, without photos. */
  datatype GalleryStats = GalleryStats(showing: nat, total: nat, withPhotos: nat, withoutPhotos: nat)

  /**
   * `update_stats`: the photo count never exceeds the total, the cards without
   * a photo are the rest, and no filter shows more than the total.
   */
  function Stats(cards: seq<CardInfo>, filterText: string): (r: GalleryStats)
    ensures r.total == |cards| && r.showing <= r.total
    ensures r.withPhotos <= r.total && r.withoutPhotos == r.total - r.withPhotos
    ensures r.withPhotos == |FilterCards(cards, WithPhotos)| && r.withoutPhotos == |FilterCards(cards, WithoutPhotos)|
  {
    FilterPartition(cards, HasPhoto(), NoPhoto());
    var withPhotos := |Filter(cards, HasPhoto())|;
    GalleryStats(|FilterCards(cards, filterText)|, |cards|, withPhotos, |cards| - withPhotos)
  }

  function Lacking(): Student -> bool {
    (s: Student) => !CardGenerated(s)
  }

  /** The students of `generate_missing_ids` still needing a card: exactly those whose flag is falsy, in their order. */
  function MissingIds(students: seq<Student>): (r: seq<Student>)
    ensures forall s :: s in r <==> s in students && !CardGenerated(s)
    ensures r == [] <==> forall i :: 0 <= i < |students| ==> CardGenerated(students[i])
  {
    var r := Filter(students, Lacking());
    assert r != [] ==> r[0] in students && !CardGenerated(r[0]);
    r
  }

  /** Selecting the missing students keeps their order: it distributes over concatenation. */
  lemma MissingIdsKeepsOrder(a: seq<Student>, b: seq<Student>)
    ensures MissingIds(a + b) == MissingIds(a) + MissingIds(b)
  {
    FilterConcat(a, b, Lacking());
  }

  function Succeeds(gen: string -> CardOutcome): string -> bool {
    (id: string) => Produced(gen(id))
  }

  /** The loop of `generate_missing_ids`: asks the generator for each id in turn and counts the cards with a path. */
  method CountProduced(ids: seq<string>, gen: string -> CardOutcome) returns (successCount: nat)
    ensures successCount == |Filter(ids, Succeeds(gen))| && successCount <= |ids|
  {
    successCount := 0;
    for k := 0 to |ids|
      invariant successCount == |Filter(ids[..k], Succeeds(gen))|
    {
      FilterConcat(ids[..k], [ids[k]], Succeeds(gen));
      assert ids[..k + 1] == ids[..k] + [ids[k]];
      if Produced(gen(ids[k])) {
        successCount := successCount + 1;
      }
    }
    assert ids[..|ids|] == ids;
  }

  /** What `generate_missing_ids` did: nothing was missing, the user declined, or the generator ran. */
  datatype MissingRun = NothingMissing | Declined(missing: nat) | Generated(successCount: nat, missing: nat)

  class IdCardGallery {
    /** `id_cards`, the list loaded from the store. */
    var idCards: seq<CardInfo>
    /** The filter combo box's current text. */
    var filterText: string
    /** The cards in the grid layout, in the order they were added. */
    var placed: seq<Placement>
    /** The rows given a stretch factor, one per display. */
    var stretchedRows: set<int>
    /** The statistics label. */
    var stats: GalleryStats

    /** A gallery with its combo box on "All ID Cards", then `load_id_cards`. */
    constructor (store: Store)
      ensures filterText == AllCards && stretchedRows == {StretchRow(|idCards|)}
      ensures idCards == GeneratedIdCards(store.students, store.files)
      ensures GridLayout(placed, idCards) && stats == Stats(idCards, AllCards)
    {
      idCards := [];
      filterText := AllCards;
      placed := [];
      stretchedRows := {};
      stats := Stats([], AllCards);
      new;
      LoadIdCards(store);
    }

    /**
     * `display_id_cards`: clears the grid, places the filtered cards row by
     * row, three to a row, and stretches the row after the last one reached.
     */
    method DisplayIdCards()
      modifies this`placed, this`stretchedRows
      ensures GridLayout(placed, FilterCards(idCards, filterText))
      ensures stretchedRows == old(stretchedRows) + {StretchRow(|FilterCards(idCards, filterText)|)}
    {
      var shown := FilterCards(idCards, filterText);
      placed := [];
      var row, col := 0, 0;
      for k := 0 to |shown|
        invariant row == k / Columns && col == k % Columns
        invariant GridLayout(placed, shown[..k]) && stretchedRows == old(stretchedRows)
      {
        NextCell(k);
        placed := placed + [Placement(shown[k], row, col)];
        col := col + 1;
        if col >= Columns {
          col := 0;
          row := row + 1;
        }
      }
      assert shown[..|shown|] == shown;
      stretchedRows := stretchedRows + {row + 1};
    }

    /** `update_stats`. */
    method UpdateStats()
      modifies this`stats
      ensures stats == Stats(idCards, filterText)
    {
      stats := Stats(idCards, filterText);
    }

    /** `load_id_cards`: reloads the issued cards, then redisplays them and the statistics. */
    method LoadIdCards(store: Store)
      modifies this`idCards, this`placed, this`stretchedRows, this`stats
      ensures idCards == GeneratedIdCards(store.students, store.files)
      ensures GridLayout(placed, FilterCards(idCards, filterText))
      ensures stretchedRows == old(stretchedRows) + {StretchRow(|FilterCards(idCards, filterText)|)}
      ensures stats == Stats(idCards, filterText)
    {
      var cards := GetAllGeneratedIdCards(store.students, store.files);
      idCards := cards;
      DisplayIdCards();
      UpdateStats();
    }

    /** `apply_filter`, run when the combo box shows a new text. */
    method ApplyFilter(text: string)
      modifies this`filterText, this`placed, this`stretchedRows, this`stats
      ensures filterText == text
      ensures GridLayout(placed, FilterCards(idCards, text))
      ensures stretchedRows == old(stretchedRows) + {StretchRow(|FilterCards(idCards, text)|)}
      ensures stats == Stats(idCards, text)
    {
      filterText := text;
      DisplayIdCards();
      UpdateStats();
    }

    /**
     * `generate_missing_ids`: when no student lacks a card nothing is
     * generated; otherwise, if the user confirms, the generator is asked once
     * per missing student in order and the cards with a path are counted.
     * `requested` lists the ids handed to the generator.
     */
    method GenerateMissingIds(store: Store, confirmed: bool, gen: string -> CardOutcome) returns (outcome: MissingRun, requested: seq<string>)
      modifies this`idCards, this`placed, this`stretchedRows, this`stats
      ensures var missing := MissingIds(AllStudents(store.students));
        && (missing == [] ==> outcome == NothingMissing && requested == [])
        && (missing != [] && !confirmed ==> outcome == Declined(|missing|) && requested == [])
        && (missing != [] && confirmed ==>
              && requested == MapSeq(missing, IdOf)
              && outcome == Generated(|Filter(requested, Succeeds(gen))|, |missing|))
      ensures outcome.Generated? ==> outcome.successCount <= outcome.missing
      ensures outcome.Generated? ==> idCards == GeneratedIdCards(store.students, store.files)
      ensures outcome.Generated? ==> GridLayout(placed, FilterCards(idCards, filterText))
      ensures outcome.Generated? ==> stretchedRows == old(stretchedRows) + {StretchRow(|FilterCards(idCards, filterText)|)}
      ensures outcome.Generated? ==> stats == Stats(idCards, filterText)
      ensures !outcome.Generated? ==> idCards == old(idCards) && stats == old(stats)
      ensures !outcome.Generated? ==> placed == old(placed) && stretchedRows == old(stretchedRows)
    {
      var missing := MissingIds(AllStudents(store.students));
      requested := [];
      if missing == [] {
        return NothingMissing, requested;
      }
      if !confirmed {
        return Declined(|missing|), requested;
      }
      requested := MapSeq(missing, IdOf);
      var successCount := CountProduced(requested, gen);
      outcome := Generated(successCount, |missing|);
      LoadIdCards(store);
    }
  }
}
