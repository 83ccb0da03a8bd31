/** The entities that the project files of the tool share. */
module Types {

  newtype uint8 = x: int | 0 <= x < 0x100

  newtype uint32 = x: int | 0 <= x < 0x1_0000_0000

  /** A UUID, read as the unsigned 128-bit number that orders it. */
  type ProvinceID = nat

  /** The empty UUID. It marks "no parent" and is never the key of a province. */
  const INVALID_PROVINCE: ProvinceID := 0

  type StateID = uint32

  /** What `province.state = -1` stores in an unsigned 32-bit field. */
  const NO_STATE: StateID := 0xFFFF_FFFF

  datatype Color = Color(r: uint8, g: uint8, b: uint8)

  datatype Point2D = Point2D(x: uint32, y: uint32)

  datatype BoundingBox = BoundingBox(bottomLeft: Point2D, topRight: Point2D)

  datatype ProvinceType = Unknown | Land | Sea | Lake

  /** A province without its adjacency set, which no modelled operation reads. */
  datatype Province = Province(
    id: ProvinceID,
    uniqueColor: Color,
    kind: ProvinceType,
    coastal: bool,
    terrain: string,
    continent: string,
    state: StateID,
    boundingBox: BoundingBox,
    parent: ProvinceID,
    children: set<ProvinceID>)

  type ProvinceMap = map<ProvinceID, Province>

  datatype State = State(
    id: StateID,
    name: string,
    manpower: nat,
    category: string,
    buildingsMaxLevelFactor: real,
    impassable: bool,
    provinces: seq<ProvinceID>,
    color: Color)

  type StateMap = map<StateID, State>

  datatype Status =
    | Success
    | ValueNotFound
    | Unexpected
    | StateDoesNotExist
    | NotImplemented
    | ColorTableRequired
    | BitmapOffsetValidationError
    | InvalidBitsPerPixel
    | ReadTooFewBytes
    | BadMessage

  /** A value, or the status that explains its absence. */
  datatype Maybe<+T> = Value(value: T) | Failure(status: Status)

  datatype Option<+T> = None | Some(value: T)
}
