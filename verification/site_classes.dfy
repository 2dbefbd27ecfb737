/** The class name the feedback cells carry on the site, next to the colour
    and arrow words the readers look for. The two programs select the cells
    by slightly different spellings of it. */
module SiteClasses {
  import opened Text

  /** The cell class of the GUI program's first selectors. */
  const LolCellWord := "categories_content-cell"

  /** The cell class the script selects. */
  const V1CellWord := "categories__content-cell"

  /** "categorie" has no "n", so neither "green" nor "orange" fits in it. */
  lemma CategorieLacksGreen()
    ensures !Contains("categorie", "green")
  {
    MissingChar("categorie", "green", 'n');
  }

  lemma LolCellWordSplits()
    ensures LolCellWord == "categorie" + ['s'] + "_content-cell"
    ensures LolCellWord == "categories" + ['_'] + "content-cell"
  {
  }

  lemma LolTailLacksGreen()
    ensures !Contains("_content-cell", "green")
  {
    MissingChar("_content-cell", "green", 'g');
  }

  lemma LolCellWordLacksGreen()
    ensures !Contains(LolCellWord, "green")
  {
    LolCellWordSplits();
    CategorieLacksGreen();
    LolTailLacksGreen();
    ContainsAcross("categorie", 's', "_content-cell", "green");
  }

  lemma OrangeMissingFromParts()
    ensures !Contains("categories", "orange") && !Contains("content-cell", "orange")
  {
    MissingChar("categories", "orange", 'n');
    MissingChar("content-cell", "orange", 'g');
  }

  lemma LolCellWordLacksOrange()
    ensures !Contains(LolCellWord, "orange")
  {
    LolCellWordSplits();
    OrangeMissingFromParts();
    ContainsAcross("categories", '_', "content-cell", "orange");
  }

  lemma LolCellWordLacksRed()
    ensures !Contains(LolCellWord, "red")
  {
    MissingChar(LolCellWord, "red", 'd');
  }

  lemma LolCellWordLacksArrows()
    ensures !Contains(LolCellWord, "arrow-up") && !Contains(LolCellWord, "arrow-down")
  {
    MissingChar(LolCellWord, "arrow-up", 'w');
    MissingChar(LolCellWord, "arrow-down", 'w');
  }

  lemma V1CellWordSplits()
    ensures V1CellWord == "categorie" + ['s'] + "__content-cell"
  {
  }

  lemma V1TailLacksGreen()
    ensures !Contains("__content-cell", "green")
  {
    MissingChar("__content-cell", "green", 'g');
  }

  lemma V1CellWordLacksGreen()
    ensures !Contains(V1CellWord, "green")
  {
    V1CellWordSplits();
    CategorieLacksGreen();
    V1TailLacksGreen();
    ContainsAcross("categorie", 's', "__content-cell", "green");
  }

  lemma V1CellWordLacksOthers()
    ensures !Contains(V1CellWord, "yellow")
    ensures !Contains(V1CellWord, "arrow-up") && !Contains(V1CellWord, "arrow-down")
  {
    MissingChar(V1CellWord, "yellow", 'w');
    MissingChar(V1CellWord, "arrow-up", 'w');
    MissingChar(V1CellWord, "arrow-down", 'w');
  }
}
