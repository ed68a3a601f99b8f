/** Record shapes shared by the game, the menu and the feedback service (types.ts). */
module Types {

  /** Stands in for a nullable reference such as `Character | null`. */
  datatype Option<T> = None | Some(value: T)

  /** The three top-level screens the application can be on. */
  datatype GameState = Menu | Playing | GameOver

  /** A selectable character; only `name` has behavioural weight, the rest is presentation. */
  datatype Character = Character(
    id: string,
    name: string,
    color: string,
    shadowColor: string,
    face: string,
    imageUrl: string,
    description: string)

  datatype ItemKind = Food | Bomb

  /** One falling entity. Positions and speed are percentages of the play field, per frame. */
  datatype FallingItem = FallingItem(
    id: real,
    x: real,
    y: real,
    kind: ItemKind,
    icon: string,
    speed: real)
}
