/** The component values the model uses. Of the stats only the fields that are read or written by it are kept. */
module Components {
  datatype Position = Position(mapID: int, x: int, z: int)
  datatype EntityType = EntityAny | EntityPlayer | EntityMonster | EntityGroundItem
  datatype Metadata = Metadata(name: string, kind: EntityType)
  datatype Stats = Stats(hp: int, maxHP: int, level: int)
}
