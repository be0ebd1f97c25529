/** The disk behind ata_read_sectors and ata_write_sectors: single-sector transfers that may fail. */
module AtaDisk {
  import opened Bytes

  const SECTOR_SIZE := 512
  /** The controller is given 28 address bits. */
  const LBA_LIMIT := 0x1000_0000

  type Sector = s: seq<byte> | |s| == SECTOR_SIZE witness seq(SECTOR_SIZE, _ => 0)
  type Image = seq<Sector>

  class Ata {
    var image: Image
    /** The image after every sector write so far, newest last: the states a power cut can leave. */
    ghost var history: seq<Image>
    /** Number of transfers the device has refused so far. */
    ghost var faults: nat

    /** The capacity keeps every address inside the 28 bits that reach the drive. */
    ghost predicate Valid()
      reads this
    {
      |image| < LBA_LIMIT && history != [] && history[|history| - 1] == image
    }

    constructor (contents: Image)
      requires |contents| < LBA_LIMIT
      ensures Valid() && image == contents && history == [contents] && faults == 0
    {
      image := contents;
      history := [contents];
      faults := 0;
    }

    /** ata_read_sectors(lba, 1, buf): fails at the device's whim and past the end of the drive. */
    method ReadSector(lba: nat) returns (rc: int, sec: Sector)
      requires Valid() && lba < LBA_LIMIT
      modifies this`faults
      ensures Valid()
      ensures rc == 0 ==> lba < |image| && sec == image[lba] && faults == old(faults)
      ensures rc != 0 ==> rc == -1 && faults > old(faults)
    {
      sec := seq(SECTOR_SIZE, _ => 0);
      if * {
        rc, faults := -1, faults + 1;
      } else if lba >= |image| {
        rc, faults := -1, faults + 1;
      } else {
        rc, sec := 0, image[lba];
      }
    }

    /**
     * ata_write_sectors(lba, 1, buf). The error may come before any data was sent or after the whole sector was, so a
     * refused write may have changed the sector.
     */
    method WriteSector(lba: nat, sec: Sector) returns (rc: int)
      requires Valid() && lba < LBA_LIMIT
      modifies this
      ensures Valid()
      ensures rc == 0 ==> lba < |old(image)| && image == old(image)[lba := sec] && faults == old(faults)
      ensures rc == 0 ==> history == old(history) + [image]
      ensures rc != 0 ==> rc == -1 && faults > old(faults)
      ensures rc != 0 ==> (image == old(image) && history == old(history)) ||
                          (lba < |old(image)| && image == old(image)[lba := sec] && history == old(history) + [image])
    {
      if * {
        rc, faults := -1, faults + 1;
      } else if lba >= |image| {
        rc, faults := -1, faults + 1;
      } else {
        rc, image := 0, image[lba := sec];
        history := history + [image];
        if * {
          rc, faults := -1, faults + 1;
        }
      }
    }
  }
}
