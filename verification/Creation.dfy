/** Par2Creator::Process, from the layout of the output files to the matrix: each recovery packet that is laid out gets
    its row. */
module Creation {
  import opened Matrices
  import opened Elimination
  import opened Generators
  import opened GaloisTables
  import opened Galois16
  import opened BaseSelection
  import opened ReedSolomon
  import opened Ranges
  import Planner
  import Layout
  import RoundTrip

  /** Row k turns the data into the recovery words with the exponent of recovery packet k. */
  ghost predicate RowsMatch(l: Matrix<u16>, bases: seq<u16>, recoverypackets: seq<nat>) {
    && Shape(l, |recoverypackets|, |bases|)
    && forall k, data: seq<u16> :: 0 <= k < |recoverypackets| && |data| == |bases| ==>
         Dot(GF16(), l[k], data, |bases|) == RecoveryWord(GF16(), bases, data, recoverypackets[k])
  }

  lemma CreatedRows(l: Matrix<u16>, bases: seq<u16>, recoverypackets: seq<nat>)
    requires var present := AllTrue(|bases|);
             && Indexes(present, false, |bases|) == []
             && Reconstructs(GF16(), l, present, bases, [], recoverypackets)
    ensures RowsMatch(l, bases, recoverypackets)
  {
    hide Dot, GF16, RecoveryWord, Inputs, Outputs, Reconstructs, Indexes, AllTrue;
    RoundTrip.PickAll(AllTrue(|bases|), |bases|);
    MatrixShape(l, bases, recoverypackets);
    forall k, data: seq<u16> | 0 <= k < |recoverypackets| && |data| == |bases|
      ensures Dot(GF16(), l[k], data, |bases|) == RecoveryWord(GF16(), bases, data, recoverypackets[k])
    {
      CreatedRow(l, bases, recoverypackets, data, k);
    }
  }

  lemma CreatedRow(l: Matrix<u16>, bases: seq<u16>, recoverypackets: seq<nat>, data: seq<u16>, k: nat)
    requires var present := AllTrue(|bases|);
             && Indexes(present, false, |bases|) == [] && |Indexes(present, true, |bases|)| == |bases|
             && Reconstructs(GF16(), l, present, bases, [], recoverypackets)
    requires k < |recoverypackets| && |data| == |bases|
    ensures Shape(l, |recoverypackets|, |bases|)
    ensures Dot(GF16(), l[k], data, |bases|) == RecoveryWord(GF16(), bases, data, recoverypackets[k])
  {
    hide Dot, GF16, RecoveryWord, Inputs, Outputs, Reconstructs, Indexes, AllTrue;
    RoundTrip.AllThere(bases, data, recoverypackets);
    RoundTrip.ReconstructsAt(l, AllTrue(|bases|), bases, [], recoverypackets, data, k);
  }

  lemma MatrixShape(l: Matrix<u16>, bases: seq<u16>, recoverypackets: seq<nat>)
    requires var present := AllTrue(|bases|);
             && Indexes(present, false, |bases|) == [] && |Indexes(present, true, |bases|)| == |bases|
             && Reconstructs(GF16(), l, present, bases, [], recoverypackets)
    ensures Shape(l, |recoverypackets|, |bases|)
  {
  }

  /** The output files are laid out, and then the matrix is computed: the rows belong to the recovery packets in the
      order in which the layout has created them. */
  method LayOutAndComputeMatrix(creator: Planner.Par2Creator, scheme: Planner.Scheme, l: Layout.Lengths,
                                table: GaloisTable)
    returns (ok: bool, rs: ReedSolomon<u16>, files: seq<seq<Layout.Placed>>, recoverypackets: seq<nat>)
    requires creator.Counted(scheme) && creator.recoveryblockcount > 0
    requires creator.firstrecoveryblock + creator.recoveryblockcount <= 65536
    requires table.Valid() && table.bits == 16 && table.generator == G16
    ensures ok <==> creator.sourceblockcount <= 32768
    ensures recoverypackets == Layout.AllExponents(files)
    ensures ok ==> rs.leftmatrix != null && |rs.database| == creator.sourceblockcount && Bases(rs.database)
    ensures ok ==> RowsMatch(Rows(rs.leftmatrix), rs.database, recoverypackets)
  {
    hide RowsMatch, Reconstructs, Bases, GF16, Indexes, Layout.Complete, Layout.Exponents, From;
    var sizes, allocations;
    files, sizes, recoverypackets, allocations := Layout.InitialiseOutputFiles(creator, scheme, l);
    ok, rs := RoundTrip.CreatorMatrix(table, creator.sourceblockcount, creator.firstrecoveryblock,
                                      creator.recoveryblockcount);
    if ok {
      CreatedRows(Rows(rs.leftmatrix), rs.database, recoverypackets);
    }
  }
}
