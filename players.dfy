/** The player record (model/Player.java): a plain value, attributes in the
    order of the roster file's columns. */
module Players {
  datatype Player = Player(
    number: int,
    name: string,
    position: string,
    dateOfBirth: string,
    age: int,
    nationality: string,
    currentClub: string,
    height: string,
    foot: string,
    joined: string,
    signedFrom: string,
    marketValue: string)
}
