/** The fleet of the standard Hasbro rules: five ships, each with a one-character symbol. */
module Ships {

  datatype Ship = Ship(name: string, symbol: char, size: nat)

  /** `symbol_to_ship`, in the dictionary's iteration order. */
  const Catalog: seq<Ship> := [
    Ship("Carrier", 'C', 5),
    Ship("Battleship", 'B', 4),
    Ship("Cruiser", 'R', 3),
    Ship("Submarine", 'S', 3),
    Ship("Destroyer", 'D', 2)
  ]

  /** `set(symbol_to_ship.keys())` */
  const ShipSymbols: set<char> := {'C', 'B', 'R', 'S', 'D'}

  /** `symbol_to_ship[symbol]`: the catalog entry with that symbol. */
  function ShipFor(symbol: char): (s: Ship)
    requires symbol in ShipSymbols
    ensures s in Catalog && s.symbol == symbol
  {
    if symbol == 'C' then Catalog[0]
    else if symbol == 'B' then Catalog[1]
    else if symbol == 'R' then Catalog[2]
    else if symbol == 'S' then Catalog[3]
    else Catalog[4]
  }

  /** The catalog is a proper dictionary: its keys are exactly the ship symbols, no symbol
      or name is used twice, and every ship is between 2 and 5 cells long. */
  lemma CatalogIsWellFormed()
    ensures ShipSymbols == set s | s in Catalog :: s.symbol
    ensures forall i, j | 0 <= i < j < |Catalog| :: Catalog[i].symbol != Catalog[j].symbol
    ensures forall i, j | 0 <= i < j < |Catalog| :: Catalog[i].name != Catalog[j].name
    ensures forall s | s in Catalog :: 2 <= s.size <= 5
  {
    assert Catalog[0].name[0] == 'C' && Catalog[1].name[0] == 'B' && Catalog[2].name[0] == 'C';
    assert Catalog[0].name[1] == 'a' && Catalog[2].name[1] == 'r';
    assert Catalog[3].name[0] == 'S' && Catalog[4].name[0] == 'D';
  }
}
