/** The JSON hit table that extract_sequences.py reads and extends and that
    create_fasta_from_json.py turns into FASTA records: one document per
    FASTA file, holding a dictionary from read keys ("<read id>.<terminus>")
    to the hit found on that read. */
module HitTable {
  import opened Common

  /** One read's entry. The numeric fields are the values int() reads from
      the JSON document; the two sequence fields exist only once
      extract_sequences has found the read. */
  datatype ReadEntry = ReadEntry(
    prime: string,
    strand: string,
    seqFrom: int,
    seqTo: int,
    ltrFrom: int,
    ltrTo: int,
    extracted: Option<string>,
    ltrSequence: Option<string>)

  /** A document: its single top-level key (the FASTA file's name) and the
      dictionary under it, given by its keys in iteration order and the
      entries they map to. */
  datatype HitFile = HitFile(name: string, keys: seq<string>, entries: map<string, ReadEntry>)

  /** Every listed key has an entry. */
  predicate KeysListed(f: HitFile)
  {
    forall i :: 0 <= i < |f.keys| ==> f.keys[i] in f.entries
  }

  /** No key is listed twice, and the listed keys are exactly the dictionary's. */
  predicate ValidFile(f: HitFile)
  {
    (forall i, j :: 0 <= i < j < |f.keys| ==> f.keys[i] != f.keys[j])
    && KeysListed(f)
    && (forall k :: k in f.entries ==> k in f.keys)
  }
}
