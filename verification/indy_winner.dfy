/**
 * One winner of the Indianapolis 500: an id, the driver's name and the
 * year of the win, held in fields that the setters overwrite in place.
 */
module IndyWinnerRecord {
  import opened JavaInt

  class IndyWinner {
    var id: int32
    var name: string
    var year: int32

    constructor (id: int32, name: string, year: int32)
      ensures this.id == id && this.name == name && this.year == year
    {
      this.id := id;
      this.name := name;
      this.year := year;
    }

    method GetId() returns (r: int32)
      ensures r == id
    {
      return id;
    }

    /** Overwrites the id; the name and the year stay as they were. */
    method SetId(id: int32)
      modifies this
      ensures this.id == id
      ensures name == old(name) && year == old(year)
    {
      this.id := id;
    }

    method GetName() returns (r: string)
      ensures r == name
    {
      return name;
    }

    /** Overwrites the name; the id and the year stay as they were. */
    method SetName(name: string)
      modifies this
      ensures this.name == name
      ensures id == old(id) && year == old(year)
    {
      this.name := name;
    }

    method GetYear() returns (r: int32)
      ensures r == year
    {
      return year;
    }

    /** Overwrites the year; the id and the name stay as they were. */
    method SetYear(year: int32)
      modifies this
      ensures this.year == year
      ensures id == old(id) && name == old(name)
    {
      this.year := year;
    }
  }

  /**
   * Setting one field of a winner and reading all three back gives the new
   * value for that field and the old values for the others, and leaves
   * every other winner object as it was.
   */
  method SetThenGet(w: IndyWinner, other: IndyWinner, y: int32) returns (id: int32, name: string, year: int32)
    requires w != other
    modifies w
    ensures id == old(w.id) && name == old(w.name) && year == y
    ensures other.id == old(other.id) && other.name == old(other.name) && other.year == old(other.year)
  {
    w.SetYear(y);
    id := w.GetId();
    name := w.GetName();
    year := w.GetYear();
  }
}
